/** The search tree `alpha_beta` walks, and the search itself on it. A node lists, entry by
    entry of the move table, the moves it descends into; a cut-off leaves the moves of
    the current entry only, as the source's `break` leaves its inner loop. */
module SearchTree {
  import opened Text

  /** Stands for `float('inf')`: every evaluation lies strictly between -INF and INF. */
  const INF: int := 1000000000

  /** A suggested move: the table key of the piece and the name of its destination. */
  type Choice = (string, string)

  datatype Tree = Leaf(score: int) | Node(groups: seq<Group>)

  /** The moves tried for one entry of the table. */
  datatype Group = Group(edges: seq<Edge>)

  datatype Edge = Edge(choice: Choice, sub: Tree)

  function Max(a: int, b: int): int { if a >= b then a else b }
  function Min(a: int, b: int): int { if a <= b then a else b }

  /** Every leaf score lies within [-INF, INF]. */
  predicate Bounded(t: Tree)
    decreases t
  {
    match t
    case Leaf(v) => -INF <= v <= INF
    case Node(groups) =>
      forall e, j :: 0 <= e < |groups| && 0 <= j < |groups[e].edges| ==> Bounded(groups[e].edges[j].sub)
  }

  /** A scan position: entry e, move j of that entry. */
  predicate Inside(groups: seq<Group>, e: nat, j: nat) {
    e <= |groups| && (e < |groups| ==> j <= |groups[e].edges|)
  }

  function Left(groups: seq<Group>, e: nat, j: nat): nat
    requires Inside(groups, e, j)
  {
    if e < |groups| then |groups[e].edges| - j else 0
  }

  /** c is the choice of one of the moves of the node. */
  predicate Offered(groups: seq<Group>, c: Choice) {
    exists e, j :: 0 <= e < |groups| && 0 <= j < |groups[e].edges| && groups[e].edges[j].choice == c
  }

  // ---------------------------------------------------------------- alpha-beta

  /** `alpha_beta` on the tree: a leaf is scored as it stands, a node scans its moves from
      the worst score for its side. */
  function Search(t: Tree, alpha: int, beta: int, maximizing: bool): (r: (int, Option<Choice>))
    ensures t.Leaf? ==> r == (t.score, None)
    ensures r.1.Some? ==> t.Node? && Offered(t.groups, r.1.value)
    decreases t, 1, 0, 0
  {
    match t
    case Leaf(v) => (v, None)
    case Node(groups) => Scan(t, 0, 0, alpha, beta, maximizing, if maximizing then -INF else INF, None)
  }

  /** The two nested loops from entry e, move j on, with the running alpha, beta, best score
      and best move: a maximizing node keeps the first strictly better score and raises
      alpha, a minimizing one mirrors it; once beta <= alpha the rest of the entry is
      skipped, and alpha and beta carry over to the next entry. */
  function Scan(t: Tree, e: nat, j: nat, alpha: int, beta: int, maximizing: bool,
                best: int, bestMove: Option<Choice>): (r: (int, Option<Choice>))
    requires t.Node? && Inside(t.groups, e, j)
    ensures if maximizing then r.0 >= best else r.0 <= best
    ensures r.1 == bestMove || (r.1.Some? && Offered(t.groups, r.1.value))
    decreases t, 0, |t.groups| - e, Left(t.groups, e, j)
  {
    if e == |t.groups| then (best, bestMove)
    else if j == |t.groups[e].edges| then Scan(t, e + 1, 0, alpha, beta, maximizing, best, bestMove)
    else
      var edge := t.groups[e].edges[j];
      assert edge in t.groups[e].edges;
      var score := Search(edge.sub, alpha, beta, !maximizing).0;
      var better := if maximizing then score > best else score < best;
      var best', bestMove' := if better then score else best, if better then Some(edge.choice) else bestMove;
      if maximizing then
        var alpha' := Max(alpha, score);
        if beta <= alpha' then Scan(t, e + 1, 0, alpha', beta, maximizing, best', bestMove')
        else Scan(t, e, j + 1, alpha', beta, maximizing, best', bestMove')
      else
        var beta' := Min(beta, score);
        if beta' <= alpha then Scan(t, e + 1, 0, alpha, beta', maximizing, best', bestMove')
        else Scan(t, e, j + 1, alpha, beta', maximizing, best', bestMove')
  }

  // ---------------------------------------------------------------- the reference

  /** Plain minimax: the best score for the side of the node over all its moves, -INF
      (resp. INF) for a node without moves. */
  function Value(t: Tree, maximizing: bool): (r: int)
    ensures t.Leaf? ==> r == t.score
    decreases t, 1, 0, 0
  {
    match t
    case Leaf(v) => v
    case Node(groups) => Fold(t, 0, 0, maximizing, if maximizing then -INF else INF)
  }

  function Fold(t: Tree, e: nat, j: nat, maximizing: bool, acc: int): (r: int)
    requires t.Node? && Inside(t.groups, e, j)
    ensures if maximizing then r >= acc else r <= acc
    decreases t, 0, |t.groups| - e, Left(t.groups, e, j)
  {
    if e == |t.groups| then acc
    else if j == |t.groups[e].edges| then Fold(t, e + 1, 0, maximizing, acc)
    else
      var edge := t.groups[e].edges[j];
      assert edge in t.groups[e].edges;
      var v := Value(edge.sub, !maximizing);
      Fold(t, e, j + 1, maximizing, if maximizing then Max(acc, v) else Min(acc, v))
  }

  // ---------------------------------------------------------------- ranges

  lemma {:induction false} ValueRange(t: Tree, maximizing: bool)
    requires Bounded(t)
    ensures -INF <= Value(t, maximizing) <= INF
    decreases t, 1, 0, 0
  {
    if t.Node? {
      FoldRange(t, 0, 0, maximizing, if maximizing then -INF else INF);
    }
  }

  lemma {:induction false} FoldRange(t: Tree, e: nat, j: nat, maximizing: bool, acc: int)
    requires t.Node? && Bounded(t) && Inside(t.groups, e, j) && -INF <= acc <= INF
    ensures -INF <= Fold(t, e, j, maximizing, acc) <= INF
    decreases t, 0, |t.groups| - e, Left(t.groups, e, j)
  {
    if e == |t.groups| {
    } else if j == |t.groups[e].edges| {
      FoldRange(t, e + 1, 0, maximizing, acc);
    } else {
      var edge := t.groups[e].edges[j];
      assert edge in t.groups[e].edges;
      ValueRange(edge.sub, !maximizing);
      var v := Value(edge.sub, !maximizing);
      FoldRange(t, e, j + 1, maximizing, if maximizing then Max(acc, v) else Min(acc, v));
    }
  }

  lemma {:induction false} SearchRange(t: Tree, alpha: int, beta: int, maximizing: bool)
    requires Bounded(t)
    ensures -INF <= Search(t, alpha, beta, maximizing).0 <= INF
    decreases t, 1, 0, 0
  {
    if t.Node? {
      ScanRange(t, 0, 0, alpha, beta, maximizing, if maximizing then -INF else INF, None);
    }
  }

  lemma {:induction false} ScanRange(t: Tree, e: nat, j: nat, alpha: int, beta: int, maximizing: bool,
                                     best: int, bestMove: Option<Choice>)
    requires t.Node? && Bounded(t) && Inside(t.groups, e, j) && -INF <= best <= INF
    ensures -INF <= Scan(t, e, j, alpha, beta, maximizing, best, bestMove).0 <= INF
    decreases t, 0, |t.groups| - e, Left(t.groups, e, j)
  {
    if e == |t.groups| {
    } else if j == |t.groups[e].edges| {
      ScanRange(t, e + 1, 0, alpha, beta, maximizing, best, bestMove);
    } else {
      var edge := t.groups[e].edges[j];
      assert edge in t.groups[e].edges;
      SearchRange(edge.sub, alpha, beta, !maximizing);
      var score := Search(edge.sub, alpha, beta, !maximizing).0;
      var better := if maximizing then score > best else score < best;
      var best', bestMove' := if better then score else best, if better then Some(edge.choice) else bestMove;
      if maximizing {
        var alpha' := Max(alpha, score);
        if beta <= alpha' {
          ScanRange(t, e + 1, 0, alpha', beta, maximizing, best', bestMove');
        } else {
          ScanRange(t, e, j + 1, alpha', beta, maximizing, best', bestMove');
        }
      } else {
        var beta' := Min(beta, score);
        if beta' <= alpha {
          ScanRange(t, e + 1, 0, alpha, beta', maximizing, best', bestMove');
        } else {
          ScanRange(t, e, j + 1, alpha, beta', maximizing, best', bestMove');
        }
      }
    }
  }

  // ---------------------------------------------------------------- soundness

  /** x pulled into the window [lo, hi]. */
  function Clamp(x: int, lo: int, hi: int): int {
    if x <= lo then lo else if x >= hi then hi else x
  }

  /** With a non-empty window alpha-beta agrees with minimax up to the window: a score at
      or below alpha bounds the true value from above, one at or above beta bounds it from
      below, and one strictly inside is exact. */
  lemma {:induction false} SearchSound(t: Tree, alpha: int, beta: int, maximizing: bool)
    requires -INF <= alpha < beta <= INF
    ensures Clamp(Search(t, alpha, beta, maximizing).0, alpha, beta) == Clamp(Value(t, maximizing), alpha, beta)
    decreases t, 1, 0, 0, 0
  {
    if t.Node? {
      if maximizing {
        ScanSoundMax(t, 0, 0, alpha, alpha, beta, -INF, None, -INF);
      } else {
        ScanSoundMin(t, 0, 0, alpha, beta, beta, INF, None, INF);
      }
    }
  }

  /** What a maximizing scan keeps against the window [alpha0, beta] it was called with:
      alpha is max(alpha0, best), the window is still open, and the largest true value
      seen so far lifts alpha0 to the same alpha. */
  predicate MaxWindow(alpha0: int, alpha: int, beta: int, best: int, seen: int) {
    alpha0 < beta && alpha == Max(alpha0, best) && alpha < beta && Max(seen, alpha0) == alpha
  }

  predicate MinWindow(alpha: int, beta0: int, beta: int, best: int, seen: int) {
    alpha < beta0 && beta == Min(beta0, best) && alpha < beta && Min(seen, beta0) == beta
  }

  lemma {:induction false} ScanSoundMax(t: Tree, e: nat, j: nat, alpha0: int, alpha: int, beta: int,
                                        best: int, bestMove: Option<Choice>, seen: int)
    requires t.Node? && Inside(t.groups, e, j) && -INF <= alpha0 && beta <= INF
    requires MaxWindow(alpha0, alpha, beta, best, seen)
    ensures Clamp(Scan(t, e, j, alpha, beta, true, best, bestMove).0, alpha0, beta)
         == Clamp(Fold(t, e, j, true, seen), alpha0, beta)
    decreases t, 0, |t.groups| - e, Left(t.groups, e, j), 0
  {
    if e == |t.groups| {
    } else if j == |t.groups[e].edges| {
      ScanSoundMax(t, e + 1, 0, alpha0, alpha, beta, best, bestMove, seen);
    } else {
      var edge := t.groups[e].edges[j];
      assert edge in t.groups[e].edges;
      var score := Search(edge.sub, alpha, beta, false).0;
      var v := Value(edge.sub, false);
      SearchSound(edge.sub, alpha, beta, false);
      var best', bestMove' := if score > best then score else best, if score > best then Some(edge.choice) else bestMove;
      StepMax(alpha0, beta, alpha, best, seen, score, v);
      if beta > Max(alpha, score) {
        ScanSoundMax(t, e, j + 1, alpha0, Max(alpha, score), beta, best', bestMove', Max(seen, v));
      }
    }
  }

  lemma {:induction false} ScanSoundMin(t: Tree, e: nat, j: nat, alpha: int, beta0: int, beta: int,
                                        best: int, bestMove: Option<Choice>, seen: int)
    requires t.Node? && Inside(t.groups, e, j) && -INF <= alpha && beta0 <= INF
    requires MinWindow(alpha, beta0, beta, best, seen)
    ensures Clamp(Scan(t, e, j, alpha, beta, false, best, bestMove).0, alpha, beta0)
         == Clamp(Fold(t, e, j, false, seen), alpha, beta0)
    decreases t, 0, |t.groups| - e, Left(t.groups, e, j), 0
  {
    if e == |t.groups| {
    } else if j == |t.groups[e].edges| {
      ScanSoundMin(t, e + 1, 0, alpha, beta0, beta, best, bestMove, seen);
    } else {
      var edge := t.groups[e].edges[j];
      assert edge in t.groups[e].edges;
      var score := Search(edge.sub, alpha, beta, true).0;
      var v := Value(edge.sub, true);
      SearchSound(edge.sub, alpha, beta, true);
      var best', bestMove' := if score < best then score else best, if score < best then Some(edge.choice) else bestMove;
      StepMin(alpha, beta0, beta, best, seen, score, v);
      if Min(beta, score) > alpha {
        ScanSoundMin(t, e, j + 1, alpha, beta0, Min(beta, score), best', bestMove', Min(seen, v));
      }
    }
  }

  /** One move of a maximizing node, in arithmetic: a cut-off happens only when both the
      score and the true value reach beta; otherwise the window invariant carries on. */
  lemma StepMax(alpha0: int, beta: int, alpha: int, best: int, seen: int, score: int, v: int)
    requires MaxWindow(alpha0, alpha, beta, best, seen)
    requires Clamp(score, alpha, beta) == Clamp(v, alpha, beta)
    ensures beta <= Max(alpha, score) ==> score >= beta && v >= beta
    ensures beta > Max(alpha, score) ==>
      MaxWindow(alpha0, Max(alpha, score), beta, if score > best then score else best, Max(seen, v))
  {
  }

  lemma StepMin(alpha: int, beta0: int, beta: int, best: int, seen: int, score: int, v: int)
    requires MinWindow(alpha, beta0, beta, best, seen)
    requires Clamp(score, alpha, beta) == Clamp(v, alpha, beta)
    ensures Min(beta, score) <= alpha ==> score <= alpha && v <= alpha
    ensures Min(beta, score) > alpha ==>
      MinWindow(alpha, beta0, Min(beta, score), if score < best then score else best, Min(seen, v))
  {
  }

  /** With the widest window alpha-beta scores a tree of bounded leaves exactly as minimax
      does. */
  lemma FullWindow(t: Tree, maximizing: bool)
    requires Bounded(t)
    ensures Search(t, -INF, INF, maximizing).0 == Value(t, maximizing)
  {
    SearchSound(t, -INF, INF, maximizing);
    SearchRange(t, -INF, INF, maximizing);
    ValueRange(t, maximizing);
  }

  // ---------------------------------------------------------------- nodes without moves

  /** A node none of whose entries has a move. */
  predicate Stuck(t: Tree) {
    t.Node? && forall e :: 0 <= e < |t.groups| ==> t.groups[e].edges == []
  }

  /** A node without moves keeps its starting score and names no move:
      `return min_eval, best_move` with min_eval still `float('inf')`. */
  lemma StuckSearch(t: Tree, alpha: int, beta: int, maximizing: bool)
    requires Stuck(t)
    ensures Search(t, alpha, beta, maximizing) == (if maximizing then -INF else INF, None)
  {
    StuckScan(t, 0, alpha, beta, maximizing, if maximizing then -INF else INF, None);
  }

  lemma {:induction false} StuckScan(t: Tree, e: nat, alpha: int, beta: int, maximizing: bool,
                                     best: int, bestMove: Option<Choice>)
    requires Stuck(t) && e <= |t.groups|
    ensures Scan(t, e, 0, alpha, beta, maximizing, best, bestMove) == (best, bestMove)
    decreases |t.groups| - e
  {
    if e < |t.groups| {
      StuckScan(t, e + 1, alpha, beta, maximizing, best, bestMove);
    }
  }

  /** The choice of the first move of the entries, in table order. */
  function FirstOf(groups: seq<Group>): (r: Option<Choice>)
    ensures r.None? <==> forall e :: 0 <= e < |groups| ==> groups[e].edges == []
  {
    if groups == [] then None
    else if groups[0].edges != [] then Some(groups[0].edges[0].choice)
    else
      var r := FirstOf(groups[1..]);
      assert forall e :: 1 <= e < |groups| ==> groups[e] == groups[1..][e - 1];
      r
  }

  /** Every move of the node leads to a node without moves. */
  predicate RepliesStuck(t: Tree) {
    t.Node? && forall e, j :: 0 <= e < |t.groups| && 0 <= j < |t.groups[e].edges| ==> Stuck(t.groups[e].edges[j].sub)
  }

  /** When every reply is stuck, each move scores INF: the first move of the table is
      taken with score INF, the window closes (beta <= INF) and nothing later beats it. */
  lemma FirstTaken(t: Tree, alpha: int, beta: int)
    requires RepliesStuck(t) && beta <= INF
    ensures Search(t, alpha, beta, true) == (if FirstOf(t.groups).None? then -INF else INF, FirstOf(t.groups))
  {
    UntilFirst(t, 0, alpha, beta);
    assert t.groups[0..] == t.groups;
  }

  lemma {:induction false} UntilFirst(t: Tree, e: nat, alpha: int, beta: int)
    requires RepliesStuck(t) && beta <= INF && e <= |t.groups|
    ensures var f := FirstOf(t.groups[e..]);
      Scan(t, e, 0, alpha, beta, true, -INF, None) == (if f.None? then -INF else INF, f)
    decreases |t.groups| - e
  {
    if e < |t.groups| {
      assert t.groups[e..][0] == t.groups[e];
      if t.groups[e].edges == [] {
        assert t.groups[e..][1..] == t.groups[e + 1..];
        UntilFirst(t, e + 1, alpha, beta);
      } else {
        var edge := t.groups[e].edges[0];
        StuckSearch(edge.sub, alpha, beta, false);
        AfterFirst(t, e + 1, 0, Max(alpha, INF), beta, Some(edge.choice));
      }
    }
  }

  lemma {:induction false} AfterFirst(t: Tree, e: nat, j: nat, alpha: int, beta: int, bestMove: Option<Choice>)
    requires RepliesStuck(t) && beta <= INF && Inside(t.groups, e, j)
    ensures Scan(t, e, j, alpha, beta, true, INF, bestMove) == (INF, bestMove)
    decreases |t.groups| - e, Left(t.groups, e, j)
  {
    if e == |t.groups| {
    } else if j == |t.groups[e].edges| {
      AfterFirst(t, e + 1, 0, alpha, beta, bestMove);
    } else {
      var edge := t.groups[e].edges[j];
      StuckSearch(edge.sub, alpha, beta, false);
      AfterFirst(t, e + 1, 0, Max(alpha, INF), beta, bestMove);
    }
  }

  // ---------------------------------------------------------------- one ply

  /** Move j of entry e exists. */
  predicate IsEdge(groups: seq<Group>, e: int, j: int) {
    0 <= e < |groups| && 0 <= j < |groups[e].edges|
  }

  /** (e', j') comes before (e, j) in the order the loops try moves. */
  predicate Before(e': int, j': int, e: int, j: int) { e' < e || (e' == e && j' < j) }

  /** A node every move of which leads to a leaf scored strictly between -INF and INF:
      the tree of a search of depth 1. */
  ghost predicate Flat(t: Tree) {
    t.Node? && forall e, j :: IsEdge(t.groups, e, j) ==>
      t.groups[e].edges[j].sub.Leaf? && -INF < t.groups[e].edges[j].sub.score < INF
  }

  function LeafAt(t: Tree, e: int, j: int): int
    requires Flat(t) && IsEdge(t.groups, e, j)
  {
    t.groups[e].edges[j].sub.score
  }

  /** A maximizing scan of a flat node with beta = INF never cuts off: from (e, j) on it
      keeps the best score seen and, when some move beats `best`, the first move with the
      largest leaf. */
  lemma {:induction false} ScanFlat(t: Tree, e: nat, j: nat, alpha: int, best: int, bestMove: Option<Choice>)
    requires Flat(t) && Inside(t.groups, e, j) && alpha < INF && best < INF
    ensures var r := Scan(t, e, j, alpha, INF, true, best, bestMove);
      && (forall e', j' :: IsEdge(t.groups, e', j') && !Before(e', j', e, j) ==> LeafAt(t, e', j') <= r.0)
      && ((r.0 == best && r.1 == bestMove)
          || (r.0 > best && exists e', j' :: (IsEdge(t.groups, e', j') && !Before(e', j', e, j)
                && Some(t.groups[e'].edges[j'].choice) == r.1 && LeafAt(t, e', j') == r.0
                && forall e'', j'' :: IsEdge(t.groups, e'', j'') && !Before(e'', j'', e, j) && Before(e'', j'', e', j')
                     ==> LeafAt(t, e'', j'') < r.0)))
    decreases |t.groups| - e, Left(t.groups, e, j)
  {
    if e == |t.groups| {
    } else if j == |t.groups[e].edges| {
      ScanFlat(t, e + 1, 0, alpha, best, bestMove);
    } else {
      var edge := t.groups[e].edges[j];
      var score := LeafAt(t, e, j);
      assert Search(edge.sub, alpha, INF, false).0 == score;
      var best', bestMove' := if score > best then score else best, if score > best then Some(edge.choice) else bestMove;
      ScanFlat(t, e, j + 1, Max(alpha, score), best', bestMove');
      var r := Scan(t, e, j + 1, Max(alpha, score), INF, true, best', bestMove');
      assert Scan(t, e, j, alpha, INF, true, best, bestMove) == r;
      if score > best && r.0 == best' && r.1 == bestMove' {
        assert IsEdge(t.groups, e, j) && !Before(e, j, e, j);
      }
    }
  }

  /** Alpha-beta at depth 1 with the widest window is greedy: its score is the largest
      leaf, and the move it names is the first move (in the order tried) reaching that
      leaf; it names no move only when the node has none. */
  lemma OnePlyGreedy(t: Tree)
    requires Flat(t)
    ensures var r := Search(t, -INF, INF, true);
      && (forall e, j :: IsEdge(t.groups, e, j) ==> LeafAt(t, e, j) <= r.0)
      && (r.1.None? <==> forall e, j :: !IsEdge(t.groups, e, j))
      && (r.1.Some? ==> exists e, j :: (IsEdge(t.groups, e, j)
            && t.groups[e].edges[j].choice == r.1.value && LeafAt(t, e, j) == r.0
            && forall e', j' :: IsEdge(t.groups, e', j') && Before(e', j', e, j) ==> LeafAt(t, e', j') < r.0))
  {
    ScanFlat(t, 0, 0, -INF, -INF, None);
    var r := Search(t, -INF, INF, true);
    if exists e, j :: IsEdge(t.groups, e, j) {
      var e, j :| IsEdge(t.groups, e, j);
      assert !Before(e, j, 0, 0);
      assert LeafAt(t, e, j) <= r.0;
    }
  }
  // ---------------------------------------------------------------- the move named

  /** A move of the node whose reply, searched with plain minimax, scores v. */
  predicate Leads(t: Tree, c: Choice, v: int)
    requires t.Node?
  {
    exists e, j | 0 <= e < |t.groups| && 0 <= j < |t.groups[e].edges| ::
      t.groups[e].edges[j].choice == c && Value(t.groups[e].edges[j].sub, false) == v
  }

  /** With the widest window a maximizing node names a move only on a strict improvement
      while alpha equals the best score, so the move it names is one whose reply is worth,
      by minimax, exactly the score it returns. */
  lemma NamedIsBest(t: Tree)
    requires Bounded(t) && t.Node?
    ensures var r := Search(t, -INF, INF, true);
      r.0 == Value(t, true) && (r.1.Some? ==> Leads(t, r.1.value, r.0))
  {
    FullWindow(t, true);
    ScanNamed(t, 0, 0, -INF, None);
  }

  /** The scan of a maximizing node with beta = INF and alpha equal to the best score. */
  lemma {:induction false} ScanNamed(t: Tree, e: nat, j: nat, best: int, bestMove: Option<Choice>)
    requires Bounded(t) && t.Node? && Inside(t.groups, e, j) && -INF <= best <= INF
    requires bestMove.Some? ==> Leads(t, bestMove.value, best)
    ensures var r := Scan(t, e, j, best, INF, true, best, bestMove);
      r.1.Some? ==> Leads(t, r.1.value, r.0)
    decreases |t.groups| - e, Left(t.groups, e, j)
  {
    if e == |t.groups| {
    } else if j == |t.groups[e].edges| {
      ScanNamed(t, e + 1, 0, best, bestMove);
    } else {
      var edge := t.groups[e].edges[j];
      assert IsEdge(t.groups, e, j);
      var score := Search(edge.sub, best, INF, false).0;
      SearchRange(edge.sub, best, INF, false);
      if score > best {
        var v := Value(edge.sub, false);
        SearchSound(edge.sub, best, INF, false);
        ValueRange(edge.sub, false);
        assert v == score;
        assert Leads(t, edge.choice, score);
        if INF <= score {
          ScanNamed(t, e + 1, 0, score, Some(edge.choice));
        } else {
          ScanNamed(t, e, j + 1, score, Some(edge.choice));
        }
      } else if INF <= best {
        ScanNamed(t, e + 1, 0, best, bestMove);
      } else {
        ScanNamed(t, e, j + 1, best, bestMove);
      }
    }
  }
}
