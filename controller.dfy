// The rules-facing part of main.py's GameController (GestionnaireJeu in
// principal.py): turning a mouse click into a cell and playing the click.
// The window, the drawing and the event loop are not part of this model.

module Controller {
  import opened Rules
  import opened Engine

  /** The window size the program starts with: `GameController(width=600, height=600)`. */
  const WIDTH: int := 600
  const HEIGHT: int := 600

  /**
   * The cell under pixel (x, y): `i, j = y // (height // 3), x // (width // 3)`.
   * The divisors are positive, so Python's floor division and Dafny's `/`
   * agree for every x and y: the cell is the strip of rows and the strip of
   * columns, each `size // 3` pixels wide, that contain the pixel.
   */
  function CellAt(x: int, y: int, width: int, height: int): (c: (int, int))
    requires width >= 3 && height >= 3
    ensures c.0 * (height / 3) <= y < (c.0 + 1) * (height / 3)
    ensures c.1 * (width / 3) <= x < (c.1 + 1) * (width / 3)
  {
    (y / (height / 3), x / (width / 3))
  }

  /** Integer division by a positive `d` maps [0, n * d) onto [0, n). */
  lemma DivBelow(y: int, d: int, n: int)
    requires d > 0 && 0 <= y < n * d
    ensures 0 <= y / d < n
  {
    var q, r := y / d, y % d;
    assert y == q * d + r && 0 <= r < d;
    assert (q + 1) * d == q * d + d;
    assert (q + 1) * d > 0;
    assert (n - q) * d == n * d - q * d;
    assert (n - q) * d > 0;
  }

  /** In a window whose sides are multiples of 3, every pixel lies over a cell of the grid. */
  lemma CellAtInGrid(x: int, y: int, width: int, height: int)
    requires width >= 3 && height >= 3 && width % 3 == 0 && height % 3 == 0
    requires 0 <= x < width && 0 <= y < height
    ensures InRange(CellAt(x, y, width, height).0, CellAt(x, y, width, height).1)
  {
    DivBelow(y, height / 3, 3);
    DivBelow(x, width / 3, 3);
  }

  /** Every click inside the 600x600 window lands on a cell of the grid. */
  lemma WindowClicksHitGrid(x: int, y: int)
    requires 0 <= x < WIDTH && 0 <= y < HEIGHT
    ensures InRange(CellAt(x, y, WIDTH, HEIGHT).0, CellAt(x, y, WIDTH, HEIGHT).1)
  {
    CellAtInGrid(x, y, WIDTH, HEIGHT);
  }

  // ---------------------------------------------------------------------------
  // A click, as the controller handles it

  /**
   * `handle_mouse_click` on cell (i, j): the player's move, then a bot move
   * only if the player's move succeeded. A rejected click changes nothing.
   */
  ghost predicate Clicked(g: Grid, i: int, j: int, h: Grid)
    requires Wf(g) && InRange(i, j)
    ensures g[i][j] != EMPTY ==> (Clicked(g, i, j, h) <==> h == g)
    ensures Clicked(g, i, j, h) && g[i][j] == EMPTY ==> exists botOk :: BotMoved(Place(g, i, j, PLAYER), botOk, h)
  {
    var (ok, g1) := PlayerMove(g, i, j);
    if ok then exists botOk :: BotMoved(g1, botOk, h) else h == g
  }

  /**
   * The balance that play from the empty grid keeps: as many player cells as
   * bot cells, or one more player cell once the board is full.
   */
  ghost predicate Balanced(g: Grid)
    requires Wf(g)
  {
    var d := Count(g, PLAYER) - Count(g, BOT);
    d == 0 || (d == 1 && Full(g))
  }

  lemma EmptyGridBalanced()
    ensures Balanced(EmptyGrid())
  {
  }

  /**
   * Every click keeps cells valid and never overwrites an occupied cell, and
   * keeps the number of player cells minus bot cells at 0 or 1.
   */
  lemma ClickKeepsBalance(g: Grid, i: int, j: int, h: Grid)
    requires Wf(g) && InRange(i, j) && ValidCells(g) && Balanced(g)
    requires Clicked(g, i, j, h)
    ensures Wf(h) && ValidCells(h) && Balanced(h)
    ensures forall a, b :: 0 <= a < 3 && 0 <= b < 3 && g[a][b] != EMPTY ==> h[a][b] == g[a][b]
    ensures 0 <= Count(h, PLAYER) - Count(h, BOT) <= 1
  {
    var (ok, g1) := PlayerMove(g, i, j);
    PlayerMoveCounts(g, i, j);
    if ok {
      var botOk :| BotMoved(g1, botOk, h);
      BotMoveEffect(g1, botOk, h);
      BotMoveCounts(g1, botOk, h);
      BotMoveKeepsCells(g1, botOk, h);
      FullIffNoEmptyCell(g1);
      FullIffNoEmptyCell(h);
    }
  }

  /**
   * From the empty grid, two clicks on row 1, each answered by the bot in
   * row 0, reach a board where each side holds two cells of its row.
   */
  lemma ThreatReachable(g0: Grid, g1: Grid, g2: Grid)
    requires Wf(g0) && forall x, y :: 0 <= x < 3 && 0 <= y < 3 ==> g0[x][y] == EMPTY
    requires g1 == Place(Place(g0, 1, 0, PLAYER), 0, 0, BOT)
    requires g2 == Place(Place(g1, 1, 1, PLAYER), 0, 1, BOT)
    ensures Clicked(g0, 1, 0, g1) && Clicked(g1, 1, 1, g2)
    ensures g2[0][0] == BOT && g2[0][1] == BOT && g2[0][2] == EMPTY
    ensures g2[1][0] == PLAYER && g2[1][1] == PLAYER && g2[1][2] == EMPTY
  {
    ClickAnsweredAt(g0, 1, 0, 0, 0, g1);
    ClickAnsweredAt(g1, 1, 1, 0, 1, g2);
  }

  /**
   * Nothing between the player's move and the bot's checks for a winner. On
   * the board above, the click that completes the player's row 1 can be
   * answered by the bot completing row 0; rows are scanned top to bottom, so
   * `check_winner` then reports a bot win although the player's line came first.
   */
  lemma PlayerRowReportedAsBotWin(g: Grid, h: Grid)
    requires Wf(g) && g[0][0] == BOT && g[0][1] == BOT && g[0][2] == EMPTY
    requires g[1][0] == PLAYER && g[1][1] == PLAYER && g[1][2] == EMPTY
    requires h == Place(Place(g, 1, 2, PLAYER), 0, 2, BOT)
    ensures Clicked(g, 1, 2, h)
    ensures Complete(h[1]) && h[1][0] == PLAYER
    ensures CheckWinner(h) == BOT
  {
    ClickAnsweredAt(g, 1, 2, 0, 2, h);
    assert h[1] == [PLAYER, PLAYER, PLAYER];
    assert h[0] == [BOT, BOT, BOT];
    assert Complete(h[0]);
  }

  /**
   * The two lemmas above chained: from the empty grid, three clicks along row 1
   * can leave the player's row complete while `check_winner` reports the bot.
   */
  lemma ThreeClicks(g0: Grid, g1: Grid, g2: Grid, g3: Grid)
    requires Wf(g0) && forall x, y :: 0 <= x < 3 && 0 <= y < 3 ==> g0[x][y] == EMPTY
    requires g1 == Place(Place(g0, 1, 0, PLAYER), 0, 0, BOT)
    requires g2 == Place(Place(g1, 1, 1, PLAYER), 0, 1, BOT)
    requires g3 == Place(Place(g2, 1, 2, PLAYER), 0, 2, BOT)
    ensures Clicked(g0, 1, 0, g1) && Clicked(g1, 1, 1, g2) && Clicked(g2, 1, 2, g3)
    ensures Complete(g3[1]) && g3[1][0] == PLAYER
    ensures CheckWinner(g3) == BOT
  {
    ThreatReachable(g0, g1, g2);
    PlayerRowReportedAsBotWin(g2, g3);
  }

  /**
   * A click on the empty cell (i, j) may be answered by the bot on any cell
   * (a, b) that is still empty after the player's move.
   */
  lemma ClickAnsweredAt(g: Grid, i: int, j: int, a: int, b: int, h: Grid)
    requires Wf(g) && InRange(i, j) && InRange(a, b) && g[i][j] == EMPTY
    requires (a != i || b != j) && g[a][b] == EMPTY
    requires h == Place(Place(g, i, j, PLAYER), a, b, BOT)
    ensures Clicked(g, i, j, h)
  {
    var g1 := PlayerMove(g, i, j).1;
    var coords := EmptyCells(g1);
    assert (a, b) in coords;
    var k :| 0 <= k < |coords| && coords[k] == (a, b);
    assert BotMoved(g1, true, h);
  }

  class GameController {
    const game: TicTacToe
    const width: int
    const height: int

    /**
     * The game object is valid and, since only clicks change the grid and
     * play starts from the empty grid, the player leads the bot by at most one
     * cell (by one only on a full board).
     */
    ghost predicate Valid()
      reads game.grid
    {
      game.Valid() && Balanced(game.Cells())
    }

    /** `__init__`: a fresh game of the given window size. */
    constructor (width: int, height: int)
      ensures Valid() && fresh(game) && fresh(game.grid)
      ensures game.Cells() == EmptyGrid()
      ensures this.width == width && this.height == height
    {
      game := new TicTacToe();
      this.width := width;
      this.height := height;
      EmptyGridBalanced();
    }

    /**
     * `handle_mouse_click`: map the pixel to a cell, play the player's move
     * there, and play the bot's move only if the player's move succeeded.
     */
    method HandleMouseClick(x: int, y: int)
      requires Valid()
      requires width >= 3 && height >= 3
      requires InRange(CellAt(x, y, width, height).0, CellAt(x, y, width, height).1)
      modifies game.grid
      ensures Valid()
      ensures Clicked(old(game.Cells()), CellAt(x, y, width, height).0, CellAt(x, y, width, height).1, game.Cells())
    {
      var cell := CellAt(x, y, width, height);
      var i, j := cell.0, cell.1;
      ghost var g := game.Cells();
      var moved := game.PlayerMove(i, j);
      if moved {
        ghost var g1 := game.Cells();
        var botMoved := game.BotMove();
        assert BotMoved(g1, botMoved, game.Cells());
      }
      ClickKeepsBalance(g, i, j, game.Cells());
    }
  }
}
