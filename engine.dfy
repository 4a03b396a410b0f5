// The game object of main.py, class TicTacToe, which updates its grid in place.
// principal.py holds the same class as Morpion: grille = grid, gagnant = winner,
// verifier_gagnant = CheckWinner, verifier_lignes = CheckRows,
// verifier_colonnes = CheckColumns, verifier_diagonales = CheckDiagonals,
// verifier_egalite = CheckTie, coup_joueur = PlayerMove, coup_bot = BotMove,
// coords_valides = ValidCoords.

module Engine {
  import opened Rules

  class TicTacToe {
    /** The 3x3 board; the object never replaces it, only writes its cells. */
    const grid: array2<int>
    /** The last result of CheckWinner. */
    var winner: int

    /** The grid has the engine's shape and holds only cell encodings. */
    ghost predicate Valid()
      reads grid
    {
      grid.Length0 == 3 && grid.Length1 == 3 && ValidCells(Cells())
    }

    /** The board as a value, row by row. */
    ghost function Cells(): (g: Grid)
      reads grid
      requires grid.Length0 == 3 && grid.Length1 == 3
      ensures Wf(g)
      ensures forall i, j :: 0 <= i < 3 && 0 <= j < 3 ==> g[i][j] == grid[i, j]
    {
      [[grid[0, 0], grid[0, 1], grid[0, 2]],
       [grid[1, 0], grid[1, 1], grid[1, 2]],
       [grid[2, 0], grid[2, 1], grid[2, 2]]]
    }

    /** `__init__`: an empty grid and no winner. */
    constructor ()
      ensures Valid() && fresh(grid)
      ensures Cells() == EmptyGrid() && winner == EMPTY
    {
      grid := new int[3, 3]((i, j) => EMPTY);
      winner := EMPTY;
      new;
      GridExt(Cells(), EmptyGrid());
    }

    /**
     * `check_winner`: rows, then columns, then diagonals, then the tie test,
     * each consulted only while the previous ones returned 0; the result is
     * stored in `winner`. The grid is only read.
     */
    method CheckWinner() returns (w: int)
      requires Valid()
      modifies this`winner
      ensures Valid() && Cells() == old(Cells())
      ensures w == winner && w == Rules.CheckWinner(Cells())
    {
      w := CheckRows();
      if w == EMPTY {
        w := CheckColumns();
      }
      if w == EMPTY {
        w := CheckDiagonals();
      }
      if w == EMPTY {
        w := CheckTie();
      }
      winner := w;
    }

    /** `check_rows`: the rows top to bottom, returning at the first complete one. */
    method CheckRows() returns (w: int)
      requires Valid()
      ensures w == Rules.CheckRows(Cells())
    {
      ghost var g := Cells();
      for r := 0 to 3
        invariant forall s :: 0 <= s < r ==> !Complete(g[s])
      {
        assert [grid[r, 0], grid[r, 1], grid[r, 2]] == g[r];
        if Complete([grid[r, 0], grid[r, 1], grid[r, 2]]) {
          return grid[r, 0];
        }
      }
      return EMPTY;
    }

    /** `check_columns`: the columns left to right, returning at the first complete one. */
    method CheckColumns() returns (w: int)
      requires Valid()
      ensures w == Rules.CheckColumns(Cells())
    {
      ghost var g := Cells();
      for c := 0 to 3
        invariant forall d :: 0 <= d < c ==> !Complete(Column(g, d))
      {
        assert [grid[0, c], grid[1, c], grid[2, c]] == Column(g, c);
        if Complete([grid[0, c], grid[1, c], grid[2, c]]) {
          return grid[0, c];
        }
      }
      return EMPTY;
    }

    /** `check_diagonals`: the main diagonal, then the anti-diagonal. */
    method CheckDiagonals() returns (w: int)
      requires Valid()
      ensures w == Rules.CheckDiagonals(Cells())
    {
      if Complete([grid[0, 0], grid[1, 1], grid[2, 2]]) {
        return grid[0, 0];
      }
      if Complete([grid[0, 2], grid[1, 1], grid[2, 0]]) {
        return grid[0, 2];
      }
      return EMPTY;
    }

    /** `check_tie`: scans every cell and gives up at the first empty one. */
    method CheckTie() returns (w: int)
      requires Valid()
      ensures w == Rules.CheckTie(Cells())
    {
      for i := 0 to 3
        invariant forall a, b :: 0 <= a < i && 0 <= b < 3 ==> grid[a, b] != EMPTY
      {
        for j := 0 to 3
          invariant forall a, b :: 0 <= a < i && 0 <= b < 3 ==> grid[a, b] != EMPTY
          invariant forall b :: 0 <= b < j ==> grid[i, b] != EMPTY
        {
          if grid[i, j] == EMPTY {
            return EMPTY;
          }
        }
      }
      return TIE;
    }

    /**
     * `player_move(i, j)`: write 1 into cell (i, j) if it is empty and report
     * whether it was.
     */
    method PlayerMove(i: int, j: int) returns (ok: bool)
      requires Valid() && InRange(i, j)
      modifies grid
      ensures Valid()
      ensures (ok, Cells()) == Rules.PlayerMove(old(Cells()), i, j)
    {
      ghost var g := Cells();
      PlayerMoveCounts(g, i, j);
      if grid[i, j] == EMPTY {
        grid[i, j] := PLAYER;
        GridExt(Cells(), Place(g, i, j, PLAYER));
        return true;
      }
      return false;
    }

    /**
     * `valid_coords`: the coordinates of the empty cells, collected row by row
     * and, within a row, column by column.
     */
    method ValidCoords() returns (coords: seq<(int, int)>)
      requires Valid()
      ensures coords == EmptyCells(Cells())
    {
      ghost var g := Cells();
      coords := [];
      for i := 0 to 3
        invariant coords == EmptyInRows(g, i)
      {
        for j := 0 to 3
          invariant coords == EmptyInRows(g, i) + EmptyInRow(g, i, j)
        {
          assert EmptyInRow(g, i, j + 1) == EmptyInRow(g, i, j) + if g[i][j] == EMPTY then [(i, j)] else [];
          if grid[i, j] == EMPTY {
            coords := coords + [(i, j)];
          }
        }
        assert EmptyInRows(g, i + 1) == EmptyInRows(g, i) + EmptyInRow(g, i, 3);
      }
    }

    /**
     * `bot_move`: if some cell is empty, write -1 into one of them, picked
     * from `valid_coords` by `rd.choice`, and succeed; otherwise fail. Any
     * empty cell may be picked; how likely each one is is not modelled.
     */
    method BotMove() returns (ok: bool)
      requires Valid()
      modifies grid
      ensures Valid()
      ensures BotMoved(old(Cells()), ok, Cells())
    {
      ghost var g := Cells();
      var validCoords := ValidCoords();
      if |validCoords| > 0 {
        var k :| 0 <= k < |validCoords|;
        var i, j := validCoords[k].0, validCoords[k].1;
        grid[i, j] := BOT;
        GridExt(Cells(), Place(g, i, j, BOT));
        BotPicks(g, k, Cells());
        return true;
      }
      return false;
    }
  }
}
