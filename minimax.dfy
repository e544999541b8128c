/**
 * Game-tree search: `minimax_value` scores a position by exhaustive search,
 * `minimax` picks the move to play. Scores are compared as extended integers,
 * with -infinity and +infinity as the starting values of a search, and a leaf
 * may have no score at all (the engine's `None`).
 */
module Minimax {
  import opened Wrappers
  import opened Board

  /** An integer, or one of the two infinities a search starts from. */
  datatype ExtInt = NegInf | Fin(n: int) | PosInf

  /** The score of a position: absent (`None`) or an extended integer. */
  type Score = Option<ExtInt>

  /** How a terminal position is scored: `Utility` as written, or the intended one. */
  type Leaf = Board -> Option<int>

  /** `s > t` on extended integers. */
  predicate Gt(s: ExtInt, t: ExtInt)
  {
    match (s, t)
    case (NegInf, _) => false
    case (Fin(_), NegInf) => true
    case (Fin(x), Fin(y)) => x > y
    case (Fin(_), PosInf) => false
    case (PosInf, PosInf) => false
    case (PosInf, _) => true
  }

  /** `Gt` is a strict order. */
  lemma GtOrder(s: ExtInt, t: ExtInt, u: ExtInt)
    ensures Gt(s, t) && Gt(t, u) ==> Gt(s, u)
    ensures !(Gt(s, t) && Gt(t, s))
  {
  }

  /** `s` is strictly better than `t` for player `p`: X maximises, O minimises. */
  predicate Better(p: Mark, s: ExtInt, t: ExtInt)
  {
    if p == X then Gt(s, t) else Gt(t, s)
  }

  /** The worst value for `p`, which every search by `p` starts from. */
  function Start(p: Mark): (v: ExtInt)
    ensures forall t: ExtInt :: !Better(p, v, t)
    ensures forall x: int :: Better(p, Fin(x), v)
  {
    if p == X then NegInf else PosInf
  }

  /** A leaf score as a search score. */
  function Lift(u: Option<int>): Score
  {
    match u
    case None => None
    case Some(v) => Some(Fin(v))
  }

  /**
   * The pair `(score, move)` that `minimax_value` returns for `b` when
   * terminal positions are scored by `leaf`.
   */
  function ValueOf(leaf: Leaf, b: Board): (Score, Option<Action>)
    decreases Count(b, None), 2
  {
    if Terminal(b) then (Lift(leaf(b)), None)
    else
      var acts := EmptyCells(b);
      var (v, m) := Scan(Player(b), Children(leaf, b, acts), acts, 0, Start(Player(b)), None);
      (Some(v), m)
  }

  /** The scores of the positions after each of the moves `acts`, in order. */
  function Children(leaf: Leaf, b: Board, acts: seq<Action>): (r: seq<Score>)
    requires AllEmpty(b, acts)
    ensures |r| == |acts|
    ensures forall n :: 0 <= n < |acts| ==> r[n] == ChildScore(leaf, b, acts[n])
    decreases Count(b, None), 1
  {
    seq(|acts|, n requires 0 <= n < |acts| => ChildScore(leaf, b, acts[n]))
  }

  /** The score `minimax_value` gives the position after move `a`. */
  function ChildScore(leaf: Leaf, b: Board, a: Action): Score
    requires b[a.0][a.1] == None
    decreases Count(b, None), 0
  {
    ValueOf(leaf, Play(b, a)).0
  }

  /**
   * The loop of `minimax_value` for player `p` over the moves `acts`, whose
   * positions score `scores`, from position `k` and the running best `value`
   * and `best`: a move replaces them when its score is present and strictly
   * better for `p`.
   */
  function Scan(p: Mark, scores: seq<Score>, acts: seq<Action>, k: nat, value: ExtInt, best: Option<Action>): (ExtInt, Option<Action>)
    requires |scores| == |acts| && k <= |acts|
    decreases |acts| - k
  {
    if k == |acts| then (value, best)
    else if scores[k].Some? && Better(p, scores[k].value, value) then
      Scan(p, scores, acts, k + 1, scores[k].value, Some(acts[k]))
    else
      Scan(p, scores, acts, k + 1, value, best)
  }

  /**
   * The scan from position `k` ends with a value no worse for `p` than the one
   * it started from and no worse than any present score it visits. Its move
   * is the one it started from, with the starting value, or else the first
   * visited move whose score is the final value, which is then strictly
   * better than the starting value: a tie never replaces an earlier move.
   */
  lemma {:induction false} ScanBest(p: Mark, scores: seq<Score>, acts: seq<Action>, k: nat, value: ExtInt, best: Option<Action>)
    requires |scores| == |acts| && k <= |acts|
    ensures var (v, m) := Scan(p, scores, acts, k, value, best);
      !Better(p, value, v) &&
      (forall n :: k <= n < |scores| && scores[n].Some? ==> !Better(p, scores[n].value, v)) &&
      ((v, m) == (value, best) || exists n :: FirstBest(p, scores, acts, k, n, value, v, m))
    decreases |acts| - k
  {
    if k < |acts| {
      var s := scores[k];
      var up := s.Some? && Better(p, s.value, value);
      var next := if up then s.value else value;
      var nextBest := if up then Some(acts[k]) else best;
      ScanBest(p, scores, acts, k + 1, next, nextBest);
      var (v, m) := Scan(p, scores, acts, k, value, best);
      GtOrder(value, next, v);
      GtOrder(v, next, value);
      if s.Some? {
        GtOrder(s.value, next, v);
        GtOrder(v, next, s.value);
        GtOrder(s.value, value, v);
        GtOrder(v, value, s.value);
      }
      if (v, m) == (next, nextBest) {
        if up {
          assert FirstBest(p, scores, acts, k, k, value, v, m);
        }
      } else {
        var n :| FirstBest(p, scores, acts, k + 1, n, next, v, m);
        assert FirstBest(p, scores, acts, k, n, value, v, m);
      }
    }
  }

  /**
   * Move `n`, at or after position `k`, is the first whose score is `v`, it is
   * the move `m`, and `v` is strictly better for `p` than `value`.
   */
  predicate FirstBest(p: Mark, scores: seq<Score>, acts: seq<Action>, k: nat, n: nat, value: ExtInt, v: ExtInt, m: Option<Action>)
    requires |scores| == |acts|
  {
    k <= n < |acts| && m == Some(acts[n]) && scores[n] == Some(v) && Better(p, v, value) &&
    forall e :: k <= e < n ==> scores[e] != Some(v)
  }

  /**
   * `minimax_value` on a position that is not over: the score is present,
   * and the move returned is a legal move whose position has that score, or
   * there is no move and the score is still the starting infinity.
   */
  lemma ValueOfMove(leaf: Leaf, b: Board)
    requires !Terminal(b)
    ensures var (s, m) := ValueOf(leaf, b);
      s.Some? &&
      (m.None? ==> s.value == Start(Player(b))) &&
      (m.Some? ==> m.value in EmptyCells(b) && ChildScore(leaf, b, m.value) == s)
  {
    var acts := EmptyCells(b);
    ScanBest(Player(b), Children(leaf, b, acts), acts, 0, Start(Player(b)), None);
  }

  /**
   * `minimax_value` is optimal for the player to move: no legal move leads
   * to a present score strictly better than the one it returns.
   */
  lemma ValueOfBest(leaf: Leaf, b: Board)
    requires !Terminal(b)
    ensures ValueOf(leaf, b).0.Some?
    ensures forall a :: a in EmptyCells(b) && ChildScore(leaf, b, a).Some? ==>
      !Better(Player(b), ChildScore(leaf, b, a).value, ValueOf(leaf, b).0.value)
  {
    var acts := EmptyCells(b);
    var scores := Children(leaf, b, acts);
    ScanBest(Player(b), scores, acts, 0, Start(Player(b)), None);
    forall a | a in acts && ChildScore(leaf, b, a).Some?
      ensures !Better(Player(b), ChildScore(leaf, b, a).value, ValueOf(leaf, b).0.value)
    {
      var n :| 0 <= n < |acts| && acts[n] == a;
      assert scores[n] == ChildScore(leaf, b, a);
    }
  }

  /**
   * `minimax_value`: a terminal position gets its utility and no move;
   * otherwise the loop over the legal moves keeps the best present score of
   * a child position, searched recursively, and the move that reached it.
   */
  method MinimaxValue(b: Board) returns (score: Score, move: Option<Action>)
    ensures (score, move) == ValueOf(Utility, b)
    ensures Terminal(b) ==> score == Lift(Utility(b)) && move.None?
    decreases Count(b, None), 1
  {
    if Terminal(b) {
      return Lift(Utility(b)), None;
    }
    var acts := Actions(b);
    ghost var scores := Children(Utility, b, acts);
    if Player(b) == X {
      var value := NegInf;
      var bestMove := None;
      for k := 0 to |acts|
        invariant Scan(Player(b), scores, acts, k, value, bestMove) == Scan(Player(b), scores, acts, 0, Start(Player(b)), None)
      {
        var s := SearchChild(b, acts[k]);
        if s.Some? && Gt(s.value, value) {
          value := s.value;
          bestMove := Some(acts[k]);
        }
      }
      return Some(value), bestMove;
    } else {
      var value := PosInf;
      var bestMove := None;
      for k := 0 to |acts|
        invariant Scan(Player(b), scores, acts, k, value, bestMove) == Scan(Player(b), scores, acts, 0, Start(Player(b)), None)
      {
        var s := SearchChild(b, acts[k]);
        if s.Some? && Gt(value, s.value) {
          value := s.value;
          bestMove := Some(acts[k]);
        }
      }
      return Some(value), bestMove;
    }
  }

  /** `minimax_value(result(board, action))`, the score both searches compute for a legal move. */
  method SearchChild(b: Board, a: Action) returns (s: Score)
    requires b[a.0][a.1] == None
    ensures s == ChildScore(Utility, b, a)
    decreases Count(b, None), 0
  {
    var child := Result(b, Some(a));
    var score, _ := MinimaxValue(child.value);
    s := score;
  }

  /**
   * `minimax`: no move on a terminal position; otherwise the same scan as
   * `minimax_value`, so it returns the move `minimax_value` returns, which
   * is absent or a legal move.
   */
  method Minimax(b: Board) returns (move: Option<Action>)
    ensures move == ValueOf(Utility, b).1
    ensures Terminal(b) ==> move.None?
    ensures move.Some? ==> move.value in EmptyCells(b)
  {
    if Terminal(b) {
      return None;
    }
    var bestMove := None;
    var bestScore := if Player(b) == X then NegInf else PosInf;
    var acts := Actions(b);
    ghost var scores := Children(Utility, b, acts);
    for k := 0 to |acts|
      invariant Scan(Player(b), scores, acts, k, bestScore, bestMove) == Scan(Player(b), scores, acts, 0, Start(Player(b)), None)
    {
      var score := SearchChild(b, acts[k]);
      if score.Some? {
        if (Player(b) == X && Gt(score.value, bestScore)) || (!(Player(b) == X) && Gt(bestScore, score.value)) {
          bestScore := score.value;
          bestMove := Some(acts[k]);
        }
      }
    }
    move := bestMove;
    ValueOfMove(Utility, b);
  }

  /** The only values `minimax_value` as written can return: no +1 or -1 ever reaches a search. */
  predicate AsWrittenValue(v: ExtInt)
  {
    v == NegInf || v == Fin(0) || v == PosInf
  }

  /**
   * Because `utility` as written scores every won position `None`, the
   * score of any position is absent or one of -infinity, 0 and +infinity:
   * a win or a loss is never seen.
   */
  lemma {:induction false} AsWrittenScores(b: Board)
    ensures ValueOf(Utility, b).0.Some? ==> AsWrittenValue(ValueOf(Utility, b).0.value)
    ensures ValueOf(Utility, b).0 != Some(Fin(1)) && ValueOf(Utility, b).0 != Some(Fin(-1))
    decreases Count(b, None)
  {
    if !Terminal(b) {
      var acts := EmptyCells(b);
      var scores := Children(Utility, b, acts);
      forall n | 0 <= n < |acts| && scores[n].Some?
        ensures AsWrittenValue(scores[n].value)
      {
        AsWrittenScores(Play(b, acts[n]));
      }
      ScanBest(Player(b), scores, acts, 0, Start(Player(b)), None);
    }
  }

  /** X to move with a winning move at the top right; the only empty cell. */
  const OneMoveFromWin: Board :=
    [[Some(X), Some(X), None],
     [Some(O), Some(O), Some(X)],
     [Some(O), Some(X), Some(O)]]

  /** `OneMoveFromWin` after X takes the top right. */
  const WonByX: Board :=
    [[Some(X), Some(X), Some(X)],
     [Some(O), Some(O), Some(X)],
     [Some(O), Some(X), Some(O)]]

  /** No line of `OneMoveFromWin` is held by one mark. */
  lemma OneMoveFromWinOpen()
    ensures Winner(OneMoveFromWin) == None
  {
  }

  /** `OneMoveFromWin` holds four marks of each player and one empty cell. */
  lemma OneMoveFromWinCounts()
    ensures Player(OneMoveFromWin) == X && Count(OneMoveFromWin, None) == 1
  {
  }

  /** On a board with a single empty cell, that cell is the only move. */
  lemma SingleMove(b: Board, a: Action)
    requires b[a.0][a.1] == None && Count(b, None) == 1
    ensures EmptyCells(b) == [a]
  {
    EmptyCellsSpec(b);
    assert a in EmptyCells(b);
  }

  /** X taking the top right of `OneMoveFromWin` gives `WonByX`. */
  lemma TopRightWins()
    requires Player(OneMoveFromWin) == X
    ensures Play(OneMoveFromWin, (0, 2)) == WonByX
  {
    var b := OneMoveFromWin;
    var row := [Some(X), Some(X), Some(X)];
    assert b[0][2 := Some(X)] == row;
    assert b[0 := row] == WonByX;
  }

  /** The facts about `OneMoveFromWin` both searches start from. */
  lemma OneMoveFromWinFacts()
    ensures !Terminal(OneMoveFromWin) && Player(OneMoveFromWin) == X
    ensures EmptyCells(OneMoveFromWin) == [(0, 2)]
    ensures Play(OneMoveFromWin, (0, 2)) == WonByX
    ensures Terminal(WonByX) && Winner(WonByX) == Some(X)
  {
    var b := OneMoveFromWin;
    OneMoveFromWinOpen();
    OneMoveFromWinCounts();
    SingleMove(b, (0, 2));
    TopRightWins();
    assert Owner(WonByX, Lines[0]) == Some(X);
  }

  /**
   * As written, the search misses a win in one: on `OneMoveFromWin` it
   * returns -infinity and no move, so `minimax` returns no move although
   * the top right wins for X.
   */
  lemma AsWrittenMissesWin()
    ensures Winner(Play(OneMoveFromWin, (0, 2))) == Some(X)
    ensures ValueOf(Utility, OneMoveFromWin) == (Some(NegInf), None)
  {
    OneMoveFromWinFacts();
    assert ChildScore(Utility, OneMoveFromWin, (0, 2)) == None;
  }

  /**
   * With the intended `utility`, every position has a score in {-1, 0, 1},
   * and the search finds a move on every position that is not over.
   */
  lemma {:induction false} IntendedScores(b: Board)
    ensures ValueOf(IntendedUtility, b).0.Some?
    ensures ValueOf(IntendedUtility, b).0.value in {Fin(-1), Fin(0), Fin(1)}
    ensures !Terminal(b) ==> ValueOf(IntendedUtility, b).1.Some?
    decreases Count(b, None)
  {
    if !Terminal(b) {
      TerminalSpec(b);
      var acts := EmptyCells(b);
      var scores := Children(IntendedUtility, b, acts);
      forall n | 0 <= n < |acts|
        ensures scores[n].Some? && scores[n].value in {Fin(-1), Fin(0), Fin(1)}
      {
        IntendedScores(Play(b, acts[n]));
      }
      ScanBest(Player(b), scores, acts, 0, Start(Player(b)), None);
    }
  }

  /** With the intended `utility`, the search takes the win on `OneMoveFromWin`. */
  lemma IntendedTakesWin()
    ensures ValueOf(IntendedUtility, OneMoveFromWin) == (Some(Fin(1)), Some((0, 2)))
  {
    OneMoveFromWinFacts();
    assert ChildScore(IntendedUtility, OneMoveFromWin, (0, 2)) == Some(Fin(1));
  }
}
