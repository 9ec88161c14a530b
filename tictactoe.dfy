/**
 * Tic-tac-toe (tictactoe.py): the rules of the game on a 3-by-3 board of
 * X, O and EMPTY squares, and the minimax search for the best move.
 *
 * Boards are values: `result` works on a deep copy and no function of the
 * source changes the board it is given.
 */
module TicTacToe {
  import opened Optional
  import opened Collections

  datatype Player = X | O

  /** A square: `None` is EMPTY. */
  type Mark = Option<Player>

  /** A list of rows. */
  type Grid = seq<seq<Mark>>

  predicate Shaped(g: Grid) {
    |g| == 3 && forall i :: 0 <= i < 3 ==> |g[i]| == 3
  }

  /** Three rows of three squares, the only boards the game builds. */
  type Board = g: Grid | Shaped(g)
    witness [[None, None, None], [None, None, None], [None, None, None]]

  /** (row, column). */
  type Action = (int, int)

  predicate OnBoard(a: Action) {
    0 <= a.0 < 3 && 0 <= a.1 < 3
  }

  /** Square number k, counting row by row from 0. */
  function Square(k: nat): (a: Action)
    requires k < 9
    ensures OnBoard(a) && 3 * a.0 + a.1 == k
  {
    (k / 3, k % 3)
  }

  /** Every square has its number. */
  lemma SquareOf(a: Action)
    requires OnBoard(a)
    ensures Square(3 * a.0 + a.1) == a
  {
  }

  /** `initial_state`: every square empty. */
  function InitialState(): (b: Board)
    ensures forall i, j :: 0 <= i < 3 && 0 <= j < 3 ==> b[i][j] == None
  {
    [[None, None, None], [None, None, None], [None, None, None]]
  }

  // ---------------------------------------------------------------- turns

  /** `row.count(m)`. */
  function CountIn(row: seq<Mark>, m: Mark): nat {
    if row == [] then 0
    else CountIn(row[..|row| - 1], m) + (if row[|row| - 1] == m then 1 else 0)
  }

  /** The squares holding m, summed row by row. */
  function CountRows(rows: Grid, m: Mark): nat {
    if rows == [] then 0
    else CountRows(rows[..|rows| - 1], m) + CountIn(rows[|rows| - 1], m)
  }

  function Count(b: Board, p: Player): nat {
    CountRows(b, Some(p))
  }

  /** Whose turn it is: X, unless X has more marks on the board than O. */
  function ToMove(b: Board): Player {
    if Count(b, X) <= Count(b, O) then X else O
  }

  /** The mark counts of a game played by the rules from the empty board. */
  predicate Balanced(b: Board) {
    Count(b, X) == Count(b, O) || Count(b, X) == Count(b, O) + 1
  }

  /** `player`: counts the marks row by row and gives the turn to X unless X is ahead. */
  method PlayerToMove(board: Board) returns (p: Player)
    ensures p == ToMove(board)
  {
    var xCount, oCount := 0, 0;
    for k := 0 to |board|
      invariant xCount == CountRows(board[..k], Some(X))
      invariant oCount == CountRows(board[..k], Some(O))
    {
      assert board[..k + 1][..k] == board[..k];
      xCount := xCount + CountIn(board[k], Some(X));
      oCount := oCount + CountIn(board[k], Some(O));
    }
    assert board[..|board|] == board;
    if xCount <= oCount {
      p := X;
    } else {
      p := O;
    }
  }

  /** Overwriting one square changes the count of m by what left and what came. */
  lemma {:induction false} CountInUpdate(row: seq<Mark>, j: nat, v: Mark, m: Mark)
    requires j < |row|
    ensures CountIn(row[j := v], m) + (if row[j] == m then 1 else 0) == CountIn(row, m) + (if v == m then 1 else 0)
    decreases |row|
  {
    var n := |row| - 1;
    if j == n {
      assert row[j := v][..n] == row[..n];
    } else {
      assert row[j := v][..n] == row[..n][j := v];
      CountInUpdate(row[..n], j, v, m);
    }
  }

  /** Replacing one row changes the count of m by the difference of the two rows' counts. */
  lemma {:induction false} CountRowsUpdate(rows: Grid, i: nat, row: seq<Mark>, m: Mark)
    requires i < |rows|
    ensures CountRows(rows[i := row], m) + CountIn(rows[i], m) == CountRows(rows, m) + CountIn(row, m)
    decreases |rows|
  {
    var n := |rows| - 1;
    if i == n {
      assert rows[i := row][..n] == rows[..n];
    } else {
      assert rows[i := row][..n] == rows[..n][i := row];
      CountRowsUpdate(rows[..n], i, row, m);
    }
  }

  /** The game starts with X to move, every square free and nobody ahead. */
  lemma XMovesFirst()
    ensures ToMove(InitialState()) == X
    ensures Balanced(InitialState())
    ensures forall a :: a in EmptySquares(InitialState()) <==> OnBoard(a)
  {
    EmptyRowsCount(InitialState(), Some(X));
    EmptyRowsCount(InitialState(), Some(O));
  }

  /** Rows of EMPTY squares hold no mark. */
  lemma {:induction false} EmptyRowsCount(rows: Grid, m: Mark)
    requires m != None && forall i :: 0 <= i < |rows| ==> forall j :: 0 <= j < |rows[i]| ==> rows[i][j] == None
    ensures CountRows(rows, m) == 0
    decreases |rows|
  {
    if rows != [] {
      var n := |rows| - 1;
      EmptyRowsCount(rows[..n], m);
      EmptyRowCount(rows[n], m);
    }
  }

  lemma {:induction false} EmptyRowCount(row: seq<Mark>, m: Mark)
    requires m != None && forall j :: 0 <= j < |row| ==> row[j] == None
    ensures CountIn(row, m) == 0
    decreases |row|
  {
    if row != [] {
      EmptyRowCount(row[..|row| - 1], m);
    }
  }

  /** A move adds one mark of the player to move and nothing else. */
  lemma {:induction false} PlayCounts(b: Board, a: Action)
    requires a in EmptySquares(b)
    ensures Count(Play(b, a), ToMove(b)) == Count(b, ToMove(b)) + 1
    ensures Count(Play(b, a), Other(ToMove(b))) == Count(b, Other(ToMove(b)))
  {
    var p := ToMove(b);
    var row := b[a.0][a.1 := Some(p)];
    forall q | q in {p, Other(p)}
      ensures Count(Play(b, a), q) + (if q == p then 0 else 1) == Count(b, q) + (if q == p then 1 else 1)
    {
      CountInUpdate(b[a.0], a.1, Some(p), Some(q));
      CountRowsUpdate(b, a.0, row, Some(q));
    }
  }

  function Other(p: Player): Player {
    if p == X then O else X
  }

  /** Playing by the rules keeps the counts balanced and hands the turn to the other player. */
  lemma TurnsAlternate(b: Board, a: Action)
    requires Balanced(b) && a in EmptySquares(b)
    ensures Balanced(Play(b, a))
    ensures ToMove(Play(b, a)) == Other(ToMove(b))
  {
    PlayCounts(b, a);
  }

  // ---------------------------------------------------------------- moves

  /** The empty squares. */
  function EmptySquares(b: Board): (r: set<Action>)
    ensures forall a :: a in r <==> OnBoard(a) && b[a.0][a.1] == None
  {
    set i, j | 0 <= i < 3 && 0 <= j < 3 && b[i][j] == None :: (i, j)
  }

  ghost function Empties(b: Board): nat {
    |EmptySquares(b)|
  }

  /** `actions`: walks the rows and columns and collects the empty squares. */
  method Actions(board: Board) returns (moves: set<Action>)
    ensures forall a :: a in moves <==> OnBoard(a) && board[a.0][a.1] == None
  {
    moves := {};
    for i := 0 to |board|
      invariant forall a :: a in moves <==> OnBoard(a) && a.0 < i && board[a.0][a.1] == None
    {
      for j := 0 to |board[i]|
        invariant forall a :: a in moves <==> OnBoard(a) && (a.0 < i || (a.0 == i && a.1 < j)) && board[a.0][a.1] == None
      {
        if board[i][j] == None {
          moves := moves + {(i, j)};
        }
      }
    }
  }

  /** The player to move marks the empty square a. */
  function Play(b: Board, a: Action): (r: Board)
    requires a in EmptySquares(b)
  {
    b[a.0 := b[a.0][a.1 := Some(ToMove(b))]]
  }

  /**
   * `result`: a copy of the board with the player to move on `action`,
   * whose indices are read as Python reads them (-3 is row 0). None where
   * the source raises: the square is taken, or an index is out of range.
   */
  function Result(b: Board, action: Action): (r: Option<Board>)
    ensures r.Some? <==> -3 <= action.0 < 3 && -3 <= action.1 < 3 && b[PyIndex(action.0, 3)][PyIndex(action.1, 3)] == None
    ensures r.Some? ==> forall i, j :: 0 <= i < 3 && 0 <= j < 3 ==>
      r.value[i][j] == if (i, j) == (PyIndex(action.0, 3), PyIndex(action.1, 3)) then Some(ToMove(b)) else b[i][j]
  {
    if !(-3 <= action.0 < 3 && -3 <= action.1 < 3) then None
    else
      var a := (PyIndex(action.0, 3), PyIndex(action.1, 3));
      if b[a.0][a.1] != None then None else Some(Play(b, a))
  }

  /** Each move fills exactly the square it names, so a game has at most nine moves. */
  lemma PlayFillsOne(b: Board, a: Action)
    requires a in EmptySquares(b)
    ensures EmptySquares(Play(b, a)) == EmptySquares(b) - {a}
    ensures Empties(Play(b, a)) == Empties(b) - 1
  {
    assert EmptySquares(b) == EmptySquares(Play(b, a)) + {a};
  }

  // ---------------------------------------------------------------- outcome

  predicate RowFilled(b: Board, p: Player, i: int)
    requires 0 <= i < 3
  {
    forall j :: 0 <= j < 3 ==> b[i][j] == Some(p)
  }

  predicate ColumnFilled(b: Board, p: Player, j: int)
    requires 0 <= j < 3
  {
    forall i :: 0 <= i < 3 ==> b[i][j] == Some(p)
  }

  /** p fills some row, some column, the diagonal or the anti-diagonal. */
  predicate Wins(b: Board, p: Player) {
    || (exists i :: 0 <= i < 3 && RowFilled(b, p, i))
    || (exists j :: 0 <= j < 3 && ColumnFilled(b, p, j))
    || (forall i :: 0 <= i < 3 ==> b[i][i] == Some(p))
    || (forall i :: 0 <= i < 3 ==> b[i][2 - i] == Some(p))
  }

  /** The winner, X looked at before O. */
  function WinnerOf(b: Board): (w: Option<Player>) {
    if Wins(b, X) then Some(X) else if Wins(b, O) then Some(O) else None
  }

  /** A list equal to `[p] * 3`, seen square by square. */
  lemma AllOf(s: seq<Mark>, p: Player)
    requires |s| == 3
    ensures s == [Some(p), Some(p), Some(p)] <==> forall j :: 0 <= j < 3 ==> s[j] == Some(p)
  {
    if forall j :: 0 <= j < 3 ==> s[j] == Some(p) {
      assert s == [s[0], s[1], s[2]];
    }
  }

  /**
   * The body of `winner`'s loop for one player: compares every row, every
   * column, the diagonal and the anti-diagonal (`board[i][~i]`) with
   * `[player] * 3`.
   */
  method LineOf(board: Board, p: Player) returns (found: bool)
    ensures found <==> Wins(board, p)
  {
    var line := [Some(p), Some(p), Some(p)];
    for i := 0 to |board|
      invariant forall r :: 0 <= r < i ==> !RowFilled(board, p, r)
    {
      AllOf(board[i], p);
      if board[i] == line {
        assert RowFilled(board, p, i);
        return true;
      }
    }
    for i := 0 to 3
      invariant forall c :: 0 <= c < i ==> !ColumnFilled(board, p, c)
    {
      var column := seq(3, x requires 0 <= x < 3 => board[x][i]);
      AllOf(column, p);
      assert forall x :: 0 <= x < 3 ==> column[x] == board[x][i];
      if column == line {
        assert ColumnFilled(board, p, i);
        return true;
      }
    }
    var diagonal := seq(3, i requires 0 <= i < 3 => board[i][i]);
    AllOf(diagonal, p);
    assert forall i :: 0 <= i < 3 ==> diagonal[i] == board[i][i];
    if diagonal == line {
      return true;
    }
    assert PyIndex(-1, 3) == 2 && PyIndex(-2, 3) == 1 && PyIndex(-3, 3) == 0;
    var antiDiagonal := seq(3, i requires 0 <= i < 3 => board[i][PyIndex(-i - 1, 3)]);
    AllOf(antiDiagonal, p);
    assert forall i :: 0 <= i < 3 ==> antiDiagonal[i] == board[i][2 - i];
    return antiDiagonal == line;
  }

  /** `winner`: X is looked at before O, and the first player with a full line wins. */
  method Winner(board: Board) returns (w: Option<Player>)
    ensures w == WinnerOf(board)
  {
    var players := [X, O];
    assert players[0] == X && players[1] == O;
    for n := 0 to |players|
      invariant forall m :: 0 <= m < n ==> !Wins(board, players[m])
    {
      var found := LineOf(board, players[n]);
      if found {
        assert n == 1 ==> !Wins(board, players[0]);
        return Some(players[n]);
      }
    }
    assert !Wins(board, X) && !Wins(board, O);
    return None;
  }

  /** The game is over: somebody has won or no square is free. */
  predicate IsTerminal(b: Board) {
    WinnerOf(b).Some? || EmptySquares(b) == {}
  }

  /** `terminal`: a winner ends the game, and so does a board with no EMPTY in any row. */
  method Terminal(board: Board) returns (over: bool)
    ensures over <==> WinnerOf(board).Some? || forall a :: OnBoard(a) ==> board[a.0][a.1] != None
  {
    var w := Winner(board);
    if w != None {
      return true;
    }
    for i := 0 to |board|
      invariant forall a :: OnBoard(a) && a.0 < i ==> board[a.0][a.1] != None
    {
      if None in board[i] {
        ghost var j :| 0 <= j < 3 && board[i][j] == None;
        assert OnBoard((i, j));
        return false;
      }
    }
    return true;
  }

  /**
   * `utility` as written: 1 when X has won and 0 otherwise. Its middle
   * branch compares the winner with the integer 0, which no winner equals,
   * so a win for O scores 0, the same as a draw.
   */
  function Utility(b: Board): (u: int)
    ensures u == 1 <==> WinnerOf(b) == Some(X)
    ensures u == 0 <==> WinnerOf(b) != Some(X)
  {
    if WinnerOf(b) == Some(X) then 1 else 0
  }

  /** The scoring the docstring of `utility` describes: 1 for X's win, -1 for O's, 0 otherwise. */
  function IntendedUtility(b: Board): (u: int)
    ensures u == 1 <==> WinnerOf(b) == Some(X)
    ensures u == -1 <==> WinnerOf(b) == Some(O)
    ensures u == 0 <==> WinnerOf(b) == None
  {
    match WinnerOf(b)
    case Some(X) => 1
    case Some(O) => -1
    case None => 0
  }

  /** A board O has won: `utility` scores it 0 where -1 is meant. */
  lemma OWinScoresZero()
    ensures var b: Board := [[Some(O), Some(O), Some(O)], [Some(X), Some(X), None], [Some(X), None, None]];
      WinnerOf(b) == Some(O) && Utility(b) == 0 && IntendedUtility(b) == -1
  {
    var b: Board := [[Some(O), Some(O), Some(O)], [Some(X), Some(X), None], [Some(X), None, None]];
    forall i | 0 <= i < 3
      ensures !RowFilled(b, X, i) && !ColumnFilled(b, X, i)
    {
      assert b[0][i] == Some(O);
      assert b[i][2 - i / 2] != Some(X);
    }
    assert RowFilled(b, O, 0);
  }

  // ---------------------------------------------------------------- minimax

  /** The sentinel `max_value` (-5) or `min_value` (5) starts from. */
  function Sentinel(maximizing: bool): int {
    if maximizing then -5 else 5
  }

  /**
   * The value `max_value` (maximizing) or `min_value` computes under the
   * terminal scoring `score`: the score of a finished game, and otherwise
   * the best over the moves of the other side's value after the move,
   * against the sentinel.
   */
  ghost function Value(b: Board, score: Board -> int, maximizing: bool): int
    decreases Empties(b), 1
  {
    if IsTerminal(b) then score(b) else Scan(b, score, maximizing, 0)
  }

  /** The best of the sentinel and the values after the moves to the squares from number k on. */
  ghost function Scan(b: Board, score: Board -> int, maximizing: bool, k: nat): int
    requires k <= 9
    decreases Empties(b), 0, 9 - k
  {
    if k == 9 then Sentinel(maximizing)
    else
      var rest := Scan(b, score, maximizing, k + 1);
      var a := Square(k);
      if b[a.0][a.1] != None then rest
      else
        PlayFillsOne(b, a);
        var after := Value(Play(b, a), score, !maximizing);
        if maximizing then (if after > rest then after else rest)
        else (if after < rest then after else rest)
  }

  /** The other side's value after the move to a. */
  ghost function Child(b: Board, score: Board -> int, maximizing: bool, a: Action): int
    requires a in EmptySquares(b)
  {
    Value(Play(b, a), score, !maximizing)
  }

  /** x is at least as good as y for the side that is maximizing (or minimizing). */
  predicate NoWorse(maximizing: bool, x: int, y: int) {
    if maximizing then x >= y else x <= y
  }

  /** The scan from square k is no worse than the sentinel and than any move from k on. */
  lemma {:induction false} ScanBound(b: Board, score: Board -> int, maximizing: bool, k: nat)
    requires k <= 9
    ensures NoWorse(maximizing, Scan(b, score, maximizing, k), Sentinel(maximizing))
    ensures forall a :: a in EmptySquares(b) && k <= 3 * a.0 + a.1 ==>
      NoWorse(maximizing, Scan(b, score, maximizing, k), Child(b, score, maximizing, a))
    decreases 9 - k
  {
    if k < 9 {
      ScanBound(b, score, maximizing, k + 1);
      forall e | e in EmptySquares(b) && k <= 3 * e.0 + e.1
        ensures NoWorse(maximizing, Scan(b, score, maximizing, k), Child(b, score, maximizing, e))
      {
        SquareOf(e);
      }
    }
  }

  /** The scan from square k is the sentinel or the value after some move from k on. */
  lemma {:induction false} ScanReached(b: Board, score: Board -> int, maximizing: bool, k: nat)
    requires k <= 9
    ensures || Scan(b, score, maximizing, k) == Sentinel(maximizing)
            || exists a :: a in EmptySquares(b) && k <= 3 * a.0 + a.1 && Child(b, score, maximizing, a) == Scan(b, score, maximizing, k)
    decreases 9 - k
  {
    if k < 9 {
      ScanReached(b, score, maximizing, k + 1);
      var a := Square(k);
      if b[a.0][a.1] == None {
        assert a in EmptySquares(b);
      }
    }
  }

  /**
   * On a board where the game goes on, the value is no worse than the
   * value after any move, and it is the value after some move unless it is
   * the sentinel.
   */
  lemma BestOfMoves(b: Board, score: Board -> int, maximizing: bool)
    requires !IsTerminal(b)
    ensures forall a :: a in EmptySquares(b) ==> NoWorse(maximizing, Value(b, score, maximizing), Child(b, score, maximizing, a))
    ensures || Value(b, score, maximizing) == Sentinel(maximizing)
            || exists a :: a in EmptySquares(b) && Child(b, score, maximizing, a) == Value(b, score, maximizing)
  {
    ScanBound(b, score, maximizing, 0);
    ScanReached(b, score, maximizing, 0);
  }

  /** A number no worse than every move and equal to the sentinel or to some move is the value. */
  lemma {:induction false} ValueIsBest(b: Board, score: Board -> int, maximizing: bool, v: int)
    requires !IsTerminal(b)
    requires NoWorse(maximizing, v, Sentinel(maximizing))
    requires forall a :: a in EmptySquares(b) ==> NoWorse(maximizing, v, Child(b, score, maximizing, a))
    requires v == Sentinel(maximizing) || exists a :: a in EmptySquares(b) && Child(b, score, maximizing, a) == v
    ensures v == Value(b, score, maximizing)
  {
    BestOfMoves(b, score, maximizing);
    ScanBound(b, score, maximizing, 0);
    ScanReached(b, score, maximizing, 0);
  }

  /**
   * With every terminal score in [lo, hi], strictly inside the sentinels,
   * so is every value: the sentinel is always beaten on a board where the
   * game goes on.
   */
  lemma {:induction false} ValueWithin(b: Board, score: Board -> int, maximizing: bool, lo: int, hi: int)
    requires -5 < lo <= hi < 5
    requires forall c :: lo <= score(c) <= hi
    ensures lo <= Value(b, score, maximizing) <= hi
    decreases Empties(b)
  {
    if !IsTerminal(b) {
      BestOfMoves(b, score, maximizing);
      var a :| a in EmptySquares(b);
      PlayFillsOne(b, a);
      ValueWithin(Play(b, a), score, !maximizing, lo, hi);
      var best :| best in EmptySquares(b) && Child(b, score, maximizing, best) == Value(b, score, maximizing);
      PlayFillsOne(b, best);
      ValueWithin(Play(b, best), score, !maximizing, lo, hi);
    }
  }

  /** x beats y strictly, as the `>` of `max_value` and the `<` of `min_value` test it. */
  predicate Beats(maximizing: bool, x: int, y: int) {
    if maximizing then x > y else x < y
  }

  /**
   * After the moves in done: v is the sentinel or the value of a move in
   * done, no move in done is better, and move names the first move that
   * reached v (None while nothing beat the sentinel).
   */
  ghost predicate BestSoFar(b: Board, score: Board -> int, maximizing: bool, done: set<Action>, v: int, move: Option<Action>) {
    && done <= EmptySquares(b)
    && NoWorse(maximizing, v, Sentinel(maximizing))
    && (forall a :: a in done ==> NoWorse(maximizing, v, Child(b, score, maximizing, a)))
    && (move.None? ==> v == Sentinel(maximizing))
    && (move.Some? ==> move.value in done && Child(b, score, maximizing, move.value) == v && v != Sentinel(maximizing))
  }

  /** One more move considered keeps BestSoFar, whether or not it beats v. */
  lemma BestSoFarStep(b: Board, score: Board -> int, maximizing: bool, done: set<Action>, v: int, move: Option<Action>, a: Action, after: int)
    requires BestSoFar(b, score, maximizing, done, v, move)
    requires a in EmptySquares(b) && after == Child(b, score, maximizing, a)
    ensures Beats(maximizing, after, v) ==> BestSoFar(b, score, maximizing, done + {a}, after, Some(a))
    ensures !Beats(maximizing, after, v) ==> BestSoFar(b, score, maximizing, done + {a}, v, move)
  {
  }

  /** Once every move is considered, BestSoFar pins v to the value. */
  lemma BestSoFarDone(b: Board, score: Board -> int, maximizing: bool, v: int, move: Option<Action>)
    requires !IsTerminal(b)
    requires BestSoFar(b, score, maximizing, EmptySquares(b), v, move)
    ensures v == Value(b, score, maximizing)
  {
    ValueIsBest(b, score, maximizing, v);
  }

  /** `max_value`: the value of the board and the first move found to reach it (`()` as None). */
  method MaxValue(board: Board, score: Board -> int) returns (v: int, move: Option<Action>)
    ensures v == Value(board, score, true)
    ensures move.Some? ==> move.value in EmptySquares(board) && Child(board, score, true, move.value) == v
    ensures move.None? <==> IsTerminal(board) || v == -5
    decreases Empties(board)
  {
    var over := Terminal(board);
    if over {
      return score(board), None;
    }
    v, move := -5, None;
    var actions := Actions(board);
    var todo := actions;
    while todo != {}
      invariant todo <= actions == EmptySquares(board)
      invariant BestSoFar(board, score, true, actions - todo, v, move)
    {
      var action :| action in todo;
      var next := Result(board, action).value;
      PlayFillsOne(board, action);
      var minval, _ := MinValue(next, score);
      BestSoFarStep(board, score, true, actions - todo, v, move, action, minval);
      if minval > v {
        v, move := minval, Some(action);
      }
      ScanOne(actions, todo, action);
      todo := todo - {action};
    }
    BestSoFarDone(board, score, true, v, move);
  }

  /** `min_value`: the mirror image of `max_value`, starting from 5. */
  method MinValue(board: Board, score: Board -> int) returns (v: int, move: Option<Action>)
    ensures v == Value(board, score, false)
    ensures move.Some? ==> move.value in EmptySquares(board) && Child(board, score, false, move.value) == v
    ensures move.None? <==> IsTerminal(board) || v == 5
    decreases Empties(board)
  {
    var over := Terminal(board);
    if over {
      return score(board), None;
    }
    v, move := 5, None;
    var actions := Actions(board);
    var todo := actions;
    while todo != {}
      invariant todo <= actions == EmptySquares(board)
      invariant BestSoFar(board, score, false, actions - todo, v, move)
    {
      var action :| action in todo;
      var next := Result(board, action).value;
      PlayFillsOne(board, action);
      var maxval, _ := MaxValue(next, score);
      BestSoFarStep(board, score, false, actions - todo, v, move, action, maxval);
      if maxval < v {
        v, move := maxval, Some(action);
      }
      ScanOne(actions, todo, action);
      todo := todo - {action};
    }
    BestSoFarDone(board, score, false, v, move);
  }

  /**
   * `minimax`: no move on a finished board; otherwise a free square that
   * is best for the player to move, by `max_value` for X and `min_value`
   * for O, under the scoring `utility` as written.
   */
  method Minimax(board: Board) returns (move: Option<Action>)
    ensures move.None? <==> IsTerminal(board)
    ensures move.Some? ==> move.value in EmptySquares(board)
    ensures move.Some? && ToMove(board) == X ==> forall a :: a in EmptySquares(board) ==>
      Child(board, Utility, true, a) <= Child(board, Utility, true, move.value)
    ensures move.Some? && ToMove(board) == O ==> forall a :: a in EmptySquares(board) ==>
      Child(board, Utility, false, move.value) <= Child(board, Utility, false, a)
  {
    var current := PlayerToMove(board);
    var over := Terminal(board);
    if over {
      return None;
    }
    ValueWithin(board, Utility, current == X, 0, 1);
    BestOfMoves(board, Utility, current == X);
    if current == X {
      var _, best := MaxValue(board, Utility);
      move := best;
    } else {
      var _, best := MinValue(board, Utility);
      move := best;
    }
  }
}
