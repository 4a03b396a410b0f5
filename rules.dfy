// The rules of the tic-tac-toe engine, as pure functions over the grid value.
//
// The class TicTacToe (main.py) keeps its board as a 3x3 list of lists of ints;
// its French twin Morpion (principal.py) is the same code under other names.
// A cell holds 0 (empty), 1 (the player) or -1 (the bot), and the outcome is
// the int 1, -1, 200 (tie) or 0 (game in progress).

module Rules {

  const EMPTY: int := 0
  const PLAYER: int := 1
  const BOT: int := -1
  /** What `check_tie` reports for a board without an empty cell. */
  const TIE: int := 200

  /** The board as `self.grid` holds it: a list of three rows of three cells. */
  type Grid = seq<seq<int>>

  /** The 3x3 shape every grid of the engine has. */
  predicate Wf(g: Grid) {
    |g| == 3 && forall i :: 0 <= i < 3 ==> |g[i]| == 3
  }

  predicate InRange(i: int, j: int) {
    0 <= i < 3 && 0 <= j < 3
  }

  predicate IsCell(v: int) {
    v == EMPTY || v == PLAYER || v == BOT
  }

  /** Every cell holds one of the three cell encodings. */
  predicate ValidCells(g: Grid)
    requires Wf(g)
  {
    forall i, j :: 0 <= i < 3 && 0 <= j < 3 ==> IsCell(g[i][j])
  }

  /** The grid `__init__` builds. */
  function EmptyGrid(): (g: Grid)
    ensures Wf(g) && ValidCells(g)
    ensures forall i, j :: 0 <= i < 3 && 0 <= j < 3 ==> g[i][j] == EMPTY
  {
    [[EMPTY, EMPTY, EMPTY], [EMPTY, EMPTY, EMPTY], [EMPTY, EMPTY, EMPTY]]
  }

  /** Two well-formed grids that agree cell by cell are the same grid. */
  lemma GridExt(g: Grid, h: Grid)
    requires Wf(g) && Wf(h)
    requires forall i, j :: 0 <= i < 3 && 0 <= j < 3 ==> g[i][j] == h[i][j]
    ensures g == h
  {
    forall i | 0 <= i < 3
      ensures g[i] == h[i]
    {
      assert forall j :: 0 <= j < 3 ==> g[i][j] == h[i][j];
    }
  }

  // ---------------------------------------------------------------------------
  // Lines and the scans of check_rows, check_columns and check_diagonals

  /**
   * The test `all(v == line[0] and v != 0 for v in line)` the engine applies to
   * each row, column and diagonal: three equal, non-empty cells.
   */
  predicate Complete(line: seq<int>) {
    |line| == 3 && forall k :: 0 <= k < 3 ==> line[k] == line[0] && line[k] != EMPTY
  }

  function Column(g: Grid, c: int): seq<int>
    requires Wf(g) && 0 <= c < 3
  {
    [g[0][c], g[1][c], g[2][c]]
  }

  /** The columns, left to right, as `for col in range(3)` visits them. */
  function Columns(g: Grid): seq<seq<int>>
    requires Wf(g)
  {
    [Column(g, 0), Column(g, 1), Column(g, 2)]
  }

  /** The cells `grid[i][i]`, from the top-left corner. */
  function MainDiagonal(g: Grid): seq<int>
    requires Wf(g)
  {
    [g[0][0], g[1][1], g[2][2]]
  }

  /** The cells `grid[i][2 - i]`, from the top-right corner. */
  function AntiDiagonal(g: Grid): seq<int>
    requires Wf(g)
  {
    [g[0][2], g[1][1], g[2][0]]
  }

  /** The two diagonals in the order `check_diagonals` tests them. */
  function Diagonals(g: Grid): seq<seq<int>>
    requires Wf(g)
  {
    [MainDiagonal(g), AntiDiagonal(g)]
  }

  /** All eight winning lines in the order `check_winner` consults them. */
  function Lines(g: Grid): (ls: seq<seq<int>>)
    requires Wf(g)
    ensures |ls| == 8
  {
    g + Columns(g) + Diagonals(g)
  }

  /** Some row, column or diagonal is complete. */
  predicate HasLine(g: Grid)
    requires Wf(g)
  {
    exists k :: 0 <= k < 8 && Complete(Lines(g)[k])
  }

  /**
   * Where a scan with early return over `lines` stops: the index of the first
   * complete line, or |lines| when there is none.
   */
  function FirstCompleteIndex(lines: seq<seq<int>>): (k: nat)
    ensures k <= |lines|
    ensures k < |lines| ==> Complete(lines[k])
    ensures forall m :: 0 <= m < k ==> !Complete(lines[m])
  {
    if lines == [] then 0
    else if Complete(lines[0]) then 0
    else 1 + FirstCompleteIndex(lines[1..])
  }

  /** The value such a scan returns: the first complete line's common value, else 0. */
  function FirstComplete(lines: seq<seq<int>>): (w: int)
    ensures w != EMPTY <==> exists k :: 0 <= k < |lines| && Complete(lines[k])
  {
    var k := FirstCompleteIndex(lines);
    if k < |lines| then lines[k][0] else EMPTY
  }

  /** Scanning `a + b` is scanning `a`, then `b` only if `a` had no complete line. */
  lemma {:induction false} FirstCompleteIndexAppend(a: seq<seq<int>>, b: seq<seq<int>>)
    ensures FirstCompleteIndex(a + b)
         == if FirstCompleteIndex(a) < |a| then FirstCompleteIndex(a) else |a| + FirstCompleteIndex(b)
  {
    if a == [] {
      assert a + b == b;
    } else {
      assert (a + b)[0] == a[0];
      if !Complete(a[0]) {
        assert (a + b)[1..] == a[1..] + b;
        FirstCompleteIndexAppend(a[1..], b);
      }
    }
  }

  /** Python's `x or y` on ints: `x` unless it is 0. */
  function OrElse(x: int, y: int): (r: int)
    ensures r == EMPTY <==> x == EMPTY && y == EMPTY
    ensures r == x || r == y
  {
    if x != EMPTY then x else y
  }

  /** The scan of `a + b` returns what `scan(a) or scan(b)` returns. */
  lemma FirstCompleteAppend(a: seq<seq<int>>, b: seq<seq<int>>)
    ensures FirstComplete(a + b) == OrElse(FirstComplete(a), FirstComplete(b))
  {
    FirstCompleteIndexAppend(a, b);
    var i := FirstCompleteIndex(a);
    if i < |a| {
      assert (a + b)[i] == a[i];
    } else {
      var j := FirstCompleteIndex(b);
      if j < |b| {
        assert (a + b)[|a| + j] == b[j];
      }
    }
  }

  /**
   * `check_rows`: the common value of the topmost row whose three cells are
   * equal and non-empty, or 0 when no row is.
   */
  function CheckRows(g: Grid): (w: int)
    requires Wf(g)
    ensures w != EMPTY <==> exists r :: 0 <= r < 3 && Complete(g[r])
    ensures w != EMPTY ==>
      exists r :: 0 <= r < 3 && Complete(g[r]) && w == g[r][0] &&
        forall s :: 0 <= s < r ==> !Complete(g[s])
    ensures ValidCells(g) ==> IsCell(w)
  {
    FirstComplete(g)
  }

  /**
   * `check_columns`: the top cell of the leftmost column whose three cells are
   * equal and non-empty, or 0 when no column is.
   */
  function CheckColumns(g: Grid): (w: int)
    requires Wf(g)
    ensures w != EMPTY <==> exists c :: 0 <= c < 3 && Complete(Column(g, c))
    ensures w != EMPTY ==>
      exists c :: 0 <= c < 3 && Complete(Column(g, c)) && w == g[0][c] &&
        forall d :: 0 <= d < c ==> !Complete(Column(g, d))
    ensures ValidCells(g) ==> IsCell(w)
  {
    var k := FirstCompleteIndex(Columns(g));
    assert k < 3 ==> Columns(g)[k] == Column(g, k);
    assert forall d :: 0 <= d < 3 ==> Columns(g)[d] == Column(g, d);
    FirstComplete(Columns(g))
  }

  /**
   * `check_diagonals`: `grid[0][0]` if the main diagonal is complete, else
   * `grid[0][2]` if the anti-diagonal is, else 0. Both diagonals pass through
   * the centre, so any winner it reports owns the centre cell.
   */
  function CheckDiagonals(g: Grid): (w: int)
    requires Wf(g)
    ensures w == if Complete(MainDiagonal(g)) then g[0][0]
                 else if Complete(AntiDiagonal(g)) then g[0][2]
                 else EMPTY
    ensures w != EMPTY ==> w == g[1][1]
    ensures ValidCells(g) ==> IsCell(w)
  {
    var ds := Diagonals(g);
    assert ds[0] == MainDiagonal(g) && ds[1] == AntiDiagonal(g);
    assert MainDiagonal(g)[1] == g[1][1] && AntiDiagonal(g)[1] == g[1][1];
    FirstComplete(ds)
  }

  /** No cell is empty. */
  predicate Full(g: Grid)
    requires Wf(g)
  {
    forall i, j :: 0 <= i < 3 && 0 <= j < 3 ==> g[i][j] != EMPTY
  }

  /** How many cells of a row of three hold `v`. */
  function RowCount(row: seq<int>, v: int): nat
    requires |row| == 3
  {
    (if row[0] == v then 1 else 0) + (if row[1] == v then 1 else 0) + (if row[2] == v then 1 else 0)
  }

  /** How many cells of the grid hold `v`. */
  function Count(g: Grid, v: int): nat
    requires Wf(g)
  {
    RowCount(g[0], v) + RowCount(g[1], v) + RowCount(g[2], v)
  }

  /** A full grid is one where no cell counts as empty. */
  lemma FullIffNoEmptyCell(g: Grid)
    requires Wf(g)
    ensures Full(g) <==> Count(g, EMPTY) == 0
  {
    if !Full(g) {
      var i, j :| 0 <= i < 3 && 0 <= j < 3 && g[i][j] == EMPTY;
      assert RowCount(g[i], EMPTY) > 0;
    }
  }

  /** `check_tie`: 200 exactly when no cell is empty, 0 otherwise. */
  function CheckTie(g: Grid): (w: int)
    requires Wf(g)
    ensures w == TIE <==> Count(g, EMPTY) == 0
    ensures w == TIE || w == EMPTY
  {
    FullIffNoEmptyCell(g);
    if Full(g) then TIE else EMPTY
  }

  /**
   * `check_winner`: `check_rows() or check_columns() or check_diagonals() or
   * check_tie()`. It is 0 exactly while the game is open (no complete line and
   * an empty cell left), and on a board of valid cells it is 1, -1, 200 or 0.
   */
  function CheckWinner(g: Grid): (w: int)
    requires Wf(g)
    ensures w == EMPTY <==> !HasLine(g) && !Full(g)
    ensures ValidCells(g) ==> IsCell(w) || w == TIE
  {
    CheckWinnerPrecedence(g);
    FullIffNoEmptyCell(g);
    OrElse(OrElse(OrElse(CheckRows(g), CheckColumns(g)), CheckDiagonals(g)), CheckTie(g))
  }

  /**
   * The precedence of `check_winner`: the first complete line among the rows
   * (top to bottom), the columns (left to right), the main and then the
   * anti-diagonal decides; only a board without any complete line can be a tie.
   */
  lemma CheckWinnerPrecedence(g: Grid)
    requires Wf(g)
    ensures OrElse(OrElse(OrElse(CheckRows(g), CheckColumns(g)), CheckDiagonals(g)), CheckTie(g))
         == OrElse(FirstComplete(Lines(g)), CheckTie(g))
    ensures FirstComplete(Lines(g)) != EMPTY <==> HasLine(g)
  {
    FirstCompleteAppend(g, Columns(g));
    FirstCompleteAppend(g + Columns(g), Diagonals(g));
  }

  /** What the engine's integers stand for. */
  datatype Outcome = InProgress | PlayerWins | BotWins | Draw

  /** The integer `check_winner` uses for each outcome. */
  function Code(o: Outcome): int {
    match o
    case InProgress => EMPTY
    case PlayerWins => PLAYER
    case BotWins => BOT
    case Draw => TIE
  }

  /**
   * Reference reading of the outcome: list the eight lines in the order rows,
   * columns, main diagonal, anti-diagonal; the owner of the first complete one
   * wins; without one a full board is a draw and any other board is open.
   */
  function Evaluate(g: Grid): Outcome
    requires Wf(g) && ValidCells(g)
  {
    var k := FirstCompleteIndex(Lines(g));
    if k < 8 then (if Lines(g)[k][0] == PLAYER then PlayerWins else BotWins)
    else if Full(g) then Draw
    else InProgress
  }

  /** `check_winner` returns the code of the reference outcome, on every board of valid cells. */
  lemma CheckWinnerIsEvaluate(g: Grid)
    requires Wf(g) && ValidCells(g)
    ensures CheckWinner(g) == Code(Evaluate(g))
  {
    CheckWinnerPrecedence(g);
    FullIffNoEmptyCell(g);
    var k := FirstCompleteIndex(Lines(g));
    if k < 8 {
      LineOwner(g, k);
    }
  }

  /** Every line holds three cells of the grid, so a complete line's value is a cell value. */
  lemma LineOwner(g: Grid, k: int)
    requires Wf(g) && ValidCells(g) && 0 <= k < 8
    ensures IsCell(Lines(g)[k][0])
  {
    var ls := Lines(g);
    if k < 3 {
      assert ls[k] == g[k];
    } else if k < 6 {
      assert ls[k] == Column(g, k - 3);
    } else {
      assert ls[k] == Diagonals(g)[k - 6];
    }
  }

  /**
   * When every complete line belongs to the same side `v`, `check_winner`
   * reports `v`, whether or not the board is also full.
   */
  lemma OneSideWins(g: Grid, v: int)
    requires Wf(g) && HasLine(g)
    requires forall k :: 0 <= k < 8 && Complete(Lines(g)[k]) ==> Lines(g)[k][0] == v
    ensures CheckWinner(g) == v
  {
    CheckWinnerPrecedence(g);
    var k := FirstCompleteIndex(Lines(g));
    assert k < 8;
  }

  // ---------------------------------------------------------------------------
  // Moves

  /** The grid with cell (i, j) set to `v`: `grid[i][j] = v`. */
  function Place(g: Grid, i: int, j: int, v: int): (h: Grid)
    requires Wf(g) && InRange(i, j)
    ensures Wf(h)
    ensures forall a, b :: 0 <= a < 3 && 0 <= b < 3 ==> h[a][b] == if a == i && b == j then v else g[a][b]
  {
    g[i := g[i][j := v]]
  }

  /** Filling an empty cell with `v` adds one `v` cell and removes one empty cell; no other count moves. */
  lemma FillCount(g: Grid, i: int, j: int, v: int)
    requires Wf(g) && InRange(i, j) && g[i][j] == EMPTY && v != EMPTY
    ensures Count(Place(g, i, j, v), v) == Count(g, v) + 1
    ensures Count(Place(g, i, j, v), EMPTY) == Count(g, EMPTY) - 1
    ensures forall w :: w != v && w != EMPTY ==> Count(Place(g, i, j, v), w) == Count(g, w)
  {
    var h := Place(g, i, j, v);
    assert h == g[i := g[i][j := v]];
  }

  /**
   * `player_move(i, j)`: on an empty cell it writes 1 there and succeeds; on an
   * occupied cell it fails and the grid stays as it was. No other cell changes.
   */
  function PlayerMove(g: Grid, i: int, j: int): (r: (bool, Grid))
    requires Wf(g) && InRange(i, j)
    ensures Wf(r.1)
    ensures r.0 <==> g[i][j] == EMPTY
    ensures r.0 ==> r.1[i][j] == PLAYER
    ensures forall a, b :: 0 <= a < 3 && 0 <= b < 3 && (a != i || b != j) ==> r.1[a][b] == g[a][b]
    ensures !r.0 ==> r.1 == g
  {
    if g[i][j] == EMPTY then (true, Place(g, i, j, PLAYER)) else (false, g)
  }

  /** A player move keeps cells valid, and a successful one turns one empty cell into a player cell. */
  lemma PlayerMoveCounts(g: Grid, i: int, j: int)
    requires Wf(g) && InRange(i, j)
    ensures ValidCells(g) ==> ValidCells(PlayerMove(g, i, j).1)
    ensures var (ok, h) := PlayerMove(g, i, j);
      Count(h, PLAYER) == Count(g, PLAYER) + (if ok then 1 else 0) &&
      Count(h, BOT) == Count(g, BOT) &&
      Count(h, EMPTY) == Count(g, EMPTY) - (if ok then 1 else 0)
  {
    if g[i][j] == EMPTY {
      FillCount(g, i, j, PLAYER);
    }
  }

  /** The empty cells of row `i` among its first `n` columns, left to right. */
  function EmptyInRow(g: Grid, i: int, n: int): seq<(int, int)>
    requires Wf(g) && 0 <= i < 3 && 0 <= n <= 3
  {
    if n == 0 then []
    else EmptyInRow(g, i, n - 1) + (if g[i][n - 1] == EMPTY then [(i, n - 1)] else [])
  }

  /** The empty cells of the first `m` rows, in row-major order. */
  function EmptyInRows(g: Grid, m: int): seq<(int, int)>
    requires Wf(g) && 0 <= m <= 3
  {
    if m == 0 then [] else EmptyInRows(g, m - 1) + EmptyInRow(g, m - 1, 3)
  }

  /** A row's list holds exactly that row's empty cells among the first `n`, in column order. */
  lemma {:induction false} EmptyInRowSpec(g: Grid, i: int, n: int)
    requires Wf(g) && 0 <= i < 3 && 0 <= n <= 3
    ensures var cs := EmptyInRow(g, i, n);
      (forall a, b :: (a, b) in cs <==> a == i && 0 <= b < n && g[i][b] == EMPTY) &&
      (forall p, q :: 0 <= p < q < |cs| ==> cs[p].0 == cs[q].0 && cs[p].1 < cs[q].1)
  {
    if n > 0 {
      EmptyInRowSpec(g, i, n - 1);
      var before := EmptyInRow(g, i, n - 1);
      forall p | 0 <= p < |before|
        ensures before[p].0 == i && before[p].1 < n - 1
      {
        assert (before[p].0, before[p].1) in before;
      }
    }
  }

  /** The list of the first `m` rows holds exactly their empty cells, in row-major order. */
  lemma {:induction false} EmptyInRowsSpec(g: Grid, m: int)
    requires Wf(g) && 0 <= m <= 3
    ensures var cs := EmptyInRows(g, m);
      (forall a, b :: (a, b) in cs <==> 0 <= a < m && 0 <= b < 3 && g[a][b] == EMPTY) &&
      (forall p, q :: 0 <= p < q < |cs| ==>
        cs[p].0 < cs[q].0 || (cs[p].0 == cs[q].0 && cs[p].1 < cs[q].1))
  {
    if m > 0 {
      EmptyInRowsSpec(g, m - 1);
      EmptyInRowSpec(g, m - 1, 3);
      var before, row := EmptyInRows(g, m - 1), EmptyInRow(g, m - 1, 3);
      forall p | 0 <= p < |before|
        ensures before[p].0 < m - 1
      {
        assert (before[p].0, before[p].1) in before;
      }
      forall q | 0 <= q < |row|
        ensures row[q].0 == m - 1
      {
        assert (row[q].0, row[q].1) in row;
      }
    }
  }

  /**
   * `valid_coords`: every empty cell exactly once, in the row-major order of
   * the comprehension `for i in range(3) for j in range(3)`.
   */
  function EmptyCells(g: Grid): (cs: seq<(int, int)>)
    requires Wf(g)
    ensures forall a, b :: (a, b) in cs <==> 0 <= a < 3 && 0 <= b < 3 && g[a][b] == EMPTY
    ensures forall k :: 0 <= k < |cs| ==> InRange(cs[k].0, cs[k].1) && g[cs[k].0][cs[k].1] == EMPTY
    ensures |cs| > 0 <==> !Full(g)
    ensures forall p, q :: 0 <= p < q < |cs| ==> cs[p] != cs[q]
  {
    var cs := EmptyInRows(g, 3);
    EmptyInRowsSpec(g, 3);
    assert forall k :: 0 <= k < |cs| ==> cs[k] in cs;
    assert forall k :: 0 <= k < |cs| ==> InRange(cs[k].0, cs[k].1) && g[cs[k].0][cs[k].1] == EMPTY;
    EmptyCellListed(g, cs);
    cs
  }

  /** An empty cell on a grid that is not full shows up in any list that holds all empty cells. */
  lemma EmptyCellListed(g: Grid, cs: seq<(int, int)>)
    requires Wf(g)
    requires forall a, b :: (a, b) in cs <==> 0 <= a < 3 && 0 <= b < 3 && g[a][b] == EMPTY
    requires forall k :: 0 <= k < |cs| ==> InRange(cs[k].0, cs[k].1) && g[cs[k].0][cs[k].1] == EMPTY
    ensures !Full(g) <==> |cs| > 0
  {
    if |cs| > 0 {
      var i, j := cs[0].0, cs[0].1;
      assert g[i][j] == EMPTY;
    }
    if !Full(g) {
      var i, j :| 0 <= i < 3 && 0 <= j < 3 && g[i][j] == EMPTY;
      assert (i, j) in cs;
    }
  }

  /**
   * `bot_move` as a relation between the grid before and after: it succeeds
   * exactly when `valid_coords` is non-empty, and then writes -1 into one of
   * the listed cells (any of them: `rd.choice`); otherwise nothing changes.
   */
  ghost predicate BotMoved(g: Grid, ok: bool, h: Grid)
    requires Wf(g)
    ensures BotMoved(g, ok, h) ==> (ok <==> !Full(g))
    ensures BotMoved(g, ok, h) && !ok ==> h == g
  {
    var coords := EmptyCells(g);
    ok == (|coords| > 0) &&
    if ok then exists k :: 0 <= k < |coords| && h == Place(g, coords[k].0, coords[k].1, BOT)
    else h == g
  }

  /**
   * What a bot move does: it succeeds exactly when the grid has an empty cell;
   * it then turns exactly one empty cell into a bot cell and leaves every other
   * cell alone; on a full grid it changes nothing.
   */
  lemma BotMoveEffect(g: Grid, ok: bool, h: Grid)
    requires Wf(g) && BotMoved(g, ok, h)
    ensures Wf(h)
    ensures ok <==> !Full(g)
    ensures ok ==> exists i, j :: 0 <= i < 3 && 0 <= j < 3 && g[i][j] == EMPTY && h == Place(g, i, j, BOT)
    ensures !ok ==> h == g
  {
    var coords := EmptyCells(g);
    if ok {
      var k :| 0 <= k < |coords| && h == Place(g, coords[k].0, coords[k].1, BOT);
      var i, j := coords[k].0, coords[k].1;
      assert g[i][j] == EMPTY && h == Place(g, i, j, BOT);
    }
  }

  /** A bot move never overwrites an occupied cell and keeps cells valid. */
  lemma BotMoveKeepsCells(g: Grid, ok: bool, h: Grid)
    requires Wf(g) && BotMoved(g, ok, h)
    ensures Wf(h)
    ensures forall a, b :: 0 <= a < 3 && 0 <= b < 3 && g[a][b] != EMPTY ==> h[a][b] == g[a][b]
    ensures ValidCells(g) ==> ValidCells(h)
  {
    BotMoveEffect(g, ok, h);
  }

  /**
   * A successful bot move turns one empty cell into a bot cell; a failed one
   * changes no count.
   */
  lemma BotMoveCounts(g: Grid, ok: bool, h: Grid)
    requires Wf(g) && BotMoved(g, ok, h)
    ensures Wf(h)
    ensures Count(h, BOT) == Count(g, BOT) + (if ok then 1 else 0)
    ensures Count(h, PLAYER) == Count(g, PLAYER)
    ensures Count(h, EMPTY) == Count(g, EMPTY) - (if ok then 1 else 0)
  {
    BotMoveEffect(g, ok, h);
    if ok {
      var i, j :| 0 <= i < 3 && 0 <= j < 3 && g[i][j] == EMPTY && h == Place(g, i, j, BOT);
      FillCount(g, i, j, BOT);
    }
  }

  /** Writing -1 into any listed cell is a bot move, and it keeps cells valid. */
  lemma BotPicks(g: Grid, k: int, h: Grid)
    requires Wf(g) && 0 <= k < |EmptyCells(g)|
    requires h == Place(g, EmptyCells(g)[k].0, EmptyCells(g)[k].1, BOT)
    ensures BotMoved(g, true, h)
    ensures ValidCells(g) ==> ValidCells(h)
  {
    BotMoveKeepsCells(g, true, h);
  }

  /** With a single empty cell left, the bot's move is forced: it takes that cell. */
  lemma BotTakesLastEmptyCell(g: Grid, i: int, j: int, ok: bool, h: Grid)
    requires Wf(g) && InRange(i, j) && g[i][j] == EMPTY
    requires forall a, b :: 0 <= a < 3 && 0 <= b < 3 && (a != i || b != j) ==> g[a][b] != EMPTY
    requires BotMoved(g, ok, h)
    ensures ok && h == Place(g, i, j, BOT)
  {
    var coords := EmptyCells(g);
    assert (i, j) in coords;
    var k :| 0 <= k < |coords| && h == Place(g, coords[k].0, coords[k].1, BOT);
    assert coords[k] == (i, j);
  }
}
