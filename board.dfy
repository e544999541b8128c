/**
 * The tic-tac-toe board and the rules of play: whose turn it is, which moves
 * are legal, what a move does, who has won and when the game is over.
 */
module Board {
  import opened Wrappers

  /** The two marks; each player is named by the mark it places. */
  datatype Mark = X | O

  /** A cell holds a mark or is empty; `EMPTY` is `None`, as in the engine. */
  type Cell = Option<Mark>

  /** A row or column index. */
  type Coord = i: int | 0 <= i < 3

  /** A move `(i, j)`: place a mark in row `i`, column `j`. */
  type Action = (Coord, Coord)

  /** A 3x3 grid, stored as a list of three rows of three cells. */
  type Board = g: seq<seq<Cell>> | |g| == 3 && forall r :: 0 <= r < 3 ==> |g[r]| == 3
    witness [[None, None, None], [None, None, None], [None, None, None]]

  /** The mark of the other player. */
  function Other(m: Mark): Mark
  {
    if m == X then O else X
  }

  /** The cells in row-major order. */
  function Flat(b: Board): (s: seq<Cell>)
  {
    b[0] + b[1] + b[2]
  }

  /** Position `3 * i + j` of the row-major order holds cell `(i, j)`. */
  lemma FlatAt(b: Board, i: Coord, j: Coord)
    ensures |Flat(b)| == 9 && Flat(b)[3 * i + j] == b[i][j]
  {
  }

  /** Writing cell `(i, j)` writes position `3 * i + j` of the row-major order. */
  lemma FlatUpdate(b: Board, i: Coord, j: Coord, v: Cell)
    ensures Flat(b[i := b[i][j := v]]) == Flat(b)[3 * i + j := v]
  {
    var u := b[i := b[i][j := v]];
    FlatAt(b, i, j);
    forall k | 0 <= k < 9
      ensures Flat(u)[k] == Flat(b)[3 * i + j := v][k]
    {
      FlatAt(u, k / 3, k % 3);
      FlatAt(b, k / 3, k % 3);
    }
  }

  /** How many cells of the board hold `c`. */
  function Count(b: Board, c: Cell): nat
  {
    multiset(Flat(b))[c]
  }

  /** The row-major index of a move. */
  function Index(a: Action): nat
  {
    3 * a.0 + a.1
  }

  /** The move at row-major index `k`. */
  function At(k: nat): (a: Action)
    requires k < 9
    ensures Index(a) == k
  {
    (k / 3, k % 3)
  }

  /** Distinct moves have distinct row-major indices. */
  lemma IndexInjective(a: Action, c: Action)
    requires Index(a) == Index(c)
    ensures a == c
  {
  }

  /** The starting position: all nine cells empty, and X to move. */
  function InitialState(): (b: Board)
    ensures forall i: Coord, j: Coord :: b[i][j] == None
    ensures Count(b, None) == 9 && Count(b, Some(X)) == 0 && Count(b, Some(O)) == 0
    ensures Player(b) == X
  {
    var b: Board := [[None, None, None], [None, None, None], [None, None, None]];
    assert Flat(b) == [None, None, None, None, None, None, None, None, None];
    b
  }

  /** Whose turn it is: O exactly when X has more marks on the board than O. */
  function Player(b: Board): (p: Mark)
    ensures p == O <==> Count(b, Some(X)) > Count(b, Some(O))
    ensures p == X <==> Count(b, Some(X)) <= Count(b, Some(O))
  {
    var numX := Count(b, Some(X));
    var numO := Count(b, Some(O));
    if numX > numO then O else X
  }

  /** The counts of a position reachable by alternating play from the start. */
  predicate Balanced(b: Board)
  {
    Count(b, Some(X)) == Count(b, Some(O)) || Count(b, Some(X)) == Count(b, Some(O)) + 1
  }

  /**
   * The empty cells at row-major index below `k`, in row-major order: what
   * the two nested loops of `actions` have collected after visiting `k` cells.
   */
  function EmptyBefore(b: Board, k: nat): seq<Action>
    requires k <= 9
  {
    if k == 0 then []
    else
      var a := At(k - 1);
      EmptyBefore(b, k - 1) + (if b[a.0][a.1] == None then [a] else [])
  }

  /**
   * `EmptyBefore(b, k)` lists each empty cell of index below `k` exactly
   * once, in increasing index order, and nothing else.
   */
  lemma {:induction false} EmptyBeforeSpec(b: Board, k: nat)
    requires k <= 9
    ensures |EmptyBefore(b, k)| == multiset(Flat(b)[..k])[None]
    ensures forall n :: 0 <= n < |EmptyBefore(b, k)| ==>
      Index(EmptyBefore(b, k)[n]) < k && b[EmptyBefore(b, k)[n].0][EmptyBefore(b, k)[n].1] == None
    ensures forall n, m :: 0 <= n < m < |EmptyBefore(b, k)| ==> Index(EmptyBefore(b, k)[n]) < Index(EmptyBefore(b, k)[m])
    ensures forall a: Action :: Index(a) < k && b[a.0][a.1] == None ==> a in EmptyBefore(b, k)
  {
    FlatAt(b, 0, 0);
    if k > 0 {
      EmptyBeforeSpec(b, k - 1);
      var a := At(k - 1);
      FlatAt(b, a.0, a.1);
      assert Flat(b)[..k] == Flat(b)[..k - 1] + [Flat(b)[k - 1]];
      forall c: Action | Index(c) == k - 1 {
        IndexInjective(c, a);
      }
    }
  }

  /** Every move in `acts` is on an empty cell of `b`. */
  predicate AllEmpty(b: Board, acts: seq<Action>)
  {
    forall n :: 0 <= n < |acts| ==> b[acts[n].0][acts[n].1] == None
  }

  /** The moves `actions` returns: the empty cells of `b` in row-major order. */
  function EmptyCells(b: Board): (r: seq<Action>)
    ensures AllEmpty(b, r)
  {
    EmptyBeforeSpec(b, 9);
    EmptyBefore(b, 9)
  }

  /**
   * The empty cells of `b`: one move per empty cell, each exactly once, in
   * row-major order.
   */
  lemma EmptyCellsSpec(b: Board)
    ensures |EmptyCells(b)| == Count(b, None)
    ensures forall a: Action :: a in EmptyCells(b) <==> b[a.0][a.1] == None
    ensures forall n, m :: 0 <= n < m < |EmptyCells(b)| ==> Index(EmptyCells(b)[n]) < Index(EmptyCells(b)[m])
  {
    EmptyBeforeSpec(b, 9);
    FlatAt(b, 0, 0);
    assert Flat(b)[..9] == Flat(b);
  }

  /** `actions`: collects the empty cells with two nested loops over the rows and columns. */
  method Actions(b: Board) returns (act: seq<Action>)
    ensures act == EmptyCells(b)
  {
    act := [];
    for i := 0 to 3
      invariant act == EmptyBefore(b, 3 * i)
    {
      for j := 0 to 3
        invariant act == EmptyBefore(b, 3 * i + j)
      {
        IndexInjective(At(3 * i + j), (i, j));
        if b[i][j] == None {
          act := act + [(i, j)];
        }
      }
    }
  }

  /**
   * The board after the player to move marks the empty cell `a`: that cell
   * holds the mover's mark, every other cell is as before, so one empty cell
   * fewer and one more of the mover's marks.
   */
  function Play(b: Board, a: Action): (r: Board)
    requires b[a.0][a.1] == None
    ensures r[a.0][a.1] == Some(Player(b))
    ensures Count(r, None) == Count(b, None) - 1
    ensures Count(r, Some(Player(b))) == Count(b, Some(Player(b))) + 1
    ensures Count(r, Some(Other(Player(b)))) == Count(b, Some(Other(Player(b))))
  {
    FlatUpdate(b, a.0, a.1, Some(Player(b)));
    FlatAt(b, a.0, a.1);
    b[a.0 := b[a.0][a.1 := Some(Player(b))]]
  }

  /** A move changes only the cell it is played on. */
  lemma PlayFrame(b: Board, a: Action)
    requires b[a.0][a.1] == None
    ensures forall i: Coord, j: Coord :: (i, j) != a ==> Play(b, a)[i][j] == b[i][j]
  {
  }

  /** Playing from a balanced position keeps it balanced and passes the turn. */
  lemma PlayAlternates(b: Board, a: Action)
    requires Balanced(b) && b[a.0][a.1] == None
    ensures Balanced(Play(b, a))
    ensures Player(Play(b, a)) == Other(Player(b))
  {
  }

  /** The error `result` raises when the chosen cell is not empty. */
  datatype MoveError = CellTaken

  /**
   * `result`: no action leaves the board as it is; an occupied cell is an
   * error; otherwise the mover's mark is written into a copy of the board.
   */
  method Result(b: Board, action: Option<Action>) returns (r: Outcome<Board, MoveError>)
    ensures r == match action
      case None => Ok(b)
      case Some(a) => if b[a.0][a.1] != None then Err(CellTaken) else Ok(Play(b, a))
  {
    if action.None? {
      return Ok(b);
    }
    var (i, j) := action.value;
    if b[i][j] != None {
      return Err(CellTaken);
    }
    var newBoard := b;
    if Player(b) == X {
      newBoard := newBoard[i := newBoard[i][j := Some(X)]];
    } else if Player(b) == O {
      newBoard := newBoard[i := newBoard[i][j := Some(O)]];
    }
    r := Ok(newBoard);
  }

  /** A line of three cells: a row, a column or a diagonal. */
  type Line = (Action, Action, Action)

  /** The eight lines, in the order `winner` checks them: rows, columns, diagonals. */
  const Lines: seq<Line> := [
    ((0, 0), (0, 1), (0, 2)), ((1, 0), (1, 1), (1, 2)), ((2, 0), (2, 1), (2, 2)),
    ((0, 0), (1, 0), (2, 0)), ((0, 1), (1, 1), (2, 1)), ((0, 2), (1, 2), (2, 2)),
    ((0, 0), (1, 1), (2, 2)), ((0, 2), (1, 1), (2, 0))
  ]

  /** Mark `m` fills all three cells of line `l`. */
  predicate Fills(b: Board, l: Line, m: Mark)
  {
    b[l.0.0][l.0.1] == Some(m) && b[l.1.0][l.1.1] == Some(m) && b[l.2.0][l.2.1] == Some(m)
  }

  /** The mark in all three cells of line `l`, if they hold the same mark. */
  function Owner(b: Board, l: Line): Option<Mark>
  {
    var c := b[l.0.0][l.0.1];
    if c == b[l.1.0][l.1.1] && b[l.1.0][l.1.1] == b[l.2.0][l.2.1] && c != None then c else None
  }

  /** `Owner` names the mark that fills the line, and only that. */
  lemma OwnerSpec(b: Board, l: Line)
    ensures forall m: Mark :: Owner(b, l) == Some(m) <==> Fills(b, l, m)
  {
  }

  /** The owner of the first owned line at position `k` or later of `Lines`. */
  function WinnerFrom(b: Board, k: nat): Option<Mark>
    requires k <= |Lines|
    decreases |Lines| - k
  {
    if k == |Lines| then None
    else if Owner(b, Lines[k]).Some? then Owner(b, Lines[k])
    else WinnerFrom(b, k + 1)
  }

  /** `winner`: checks the rows, then the columns, then the two diagonals. */
  function Winner(b: Board): Option<Mark>
  {
    WinnerFrom(b, 0)
  }

  /**
   * Line `n` is the first line of `Lines`, from position `k` on, that one
   * mark fills.
   */
  predicate FirstFilled(b: Board, k: nat, n: nat, m: Mark)
  {
    k <= n < |Lines| && Fills(b, Lines[n], m) &&
    forall e, m' :: k <= e < n ==> !Fills(b, Lines[e], m')
  }

  /** `WinnerFrom(b, k)` is the mark of the first filled line from position `k` on. */
  lemma {:induction false} WinnerFromSpec(b: Board, k: nat)
    requires k <= |Lines|
    ensures WinnerFrom(b, k).None? <==> forall n, m :: k <= n < |Lines| ==> !Fills(b, Lines[n], m)
    ensures WinnerFrom(b, k).Some? ==> exists n: nat :: FirstFilled(b, k, n, WinnerFrom(b, k).value)
    decreases |Lines| - k
  {
    if k < |Lines| {
      OwnerSpec(b, Lines[k]);
      WinnerFromSpec(b, k + 1);
      if Owner(b, Lines[k]).Some? {
        assert FirstFilled(b, k, k, WinnerFrom(b, k).value);
      } else if WinnerFrom(b, k).Some? {
        var n: nat :| FirstFilled(b, k + 1, n, WinnerFrom(b, k).value);
        assert FirstFilled(b, k, n, WinnerFrom(b, k).value);
      }
    }
  }

  /**
   * `winner` returns a mark only if that mark fills a line, the first filled
   * line in the order rows, columns, diagonals; it returns `None` exactly when
   * no line is filled by one mark.
   */
  lemma WinnerSpec(b: Board)
    ensures Winner(b).None? <==> forall n, m :: 0 <= n < |Lines| ==> !Fills(b, Lines[n], m)
    ensures Winner(b).Some? ==> exists n: nat :: FirstFilled(b, 0, n, Winner(b).value)
  {
    WinnerFromSpec(b, 0);
  }

  /** `terminal`: someone has won, or every cell is taken. */
  predicate Terminal(b: Board)
  {
    Winner(b) != None || forall i: Coord, j: Coord :: b[i][j] != None
  }

  /**
   * The game is over exactly when someone has won or no cell is empty, so a
   * game that is not over has a legal move.
   */
  lemma TerminalSpec(b: Board)
    ensures Terminal(b) <==> Winner(b).Some? || Count(b, None) == 0
    ensures !Terminal(b) ==> EmptyCells(b) != []
  {
    EmptyCellsSpec(b);
    FlatAt(b, 0, 0);
    forall i: Coord, j: Coord {
      FlatAt(b, i, j);
    }
    forall k | 0 <= k < 9 {
      FlatAt(b, k / 3, k % 3);
    }
  }

  /**
   * `utility`, as written: 0 on every board without a winner, and no value at
   * all on a board with one, because the guard `if not winner(board)` is
   * false for a winning mark.
   */
  function Utility(b: Board): (r: Option<int>)
    ensures Winner(b).None? ==> r == Some(0)
    ensures Winner(b).Some? ==> r.None?
  {
    if Winner(b).None? then
      if Winner(b) == Some(X) then Some(1)
      else if Winner(b) == Some(O) then Some(-1)
      else Some(0)
    else
      None
  }

  /** The score `utility`'s documentation promises: 1 if X has won, -1 if O has, 0 otherwise. */
  function IntendedUtility(b: Board): (r: Option<int>)
    ensures r == Some(1) <==> Winner(b) == Some(X)
    ensures r == Some(-1) <==> Winner(b) == Some(O)
    ensures r == Some(0) <==> Winner(b).None?
  {
    match Winner(b)
    case Some(X) => Some(1)
    case Some(O) => Some(-1)
    case None => Some(0)
  }
}
