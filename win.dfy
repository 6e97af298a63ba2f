/**
 * Win detection after a move: the constant-time test of the game state, and the eight
 * lines of the board it decides.
 */
module Win {
  import opened Grids

  /** The eight lines of three: three rows, three columns and the two diagonals. */
  datatype Line = RowLine(r: Idx) | ColLine(c: Idx) | MainDiagonal | AntiDiagonal

  /** The cell in row r, column c lies on line l. */
  predicate OnLine(l: Line, r: Idx, c: Idx) {
    match l
    case RowLine(k) => r == k
    case ColLine(k) => c == k
    case MainDiagonal => r == c
    case AntiDiagonal => r + c == 2
  }

  /** Every cell of line l holds m. */
  predicate Filled(g: Grid, l: Line, m: int) {
    match l
    case RowLine(k) => At(g, k, 0) == m && At(g, k, 1) == m && At(g, k, 2) == m
    case ColLine(k) => At(g, 0, k) == m && At(g, 1, k) == m && At(g, 2, k) == m
    case MainDiagonal => At(g, 0, 0) == m && At(g, 1, 1) == m && At(g, 2, 2) == m
    case AntiDiagonal => At(g, 0, 2) == m && At(g, 1, 1) == m && At(g, 2, 0) == m
  }

  /** Some line through the cell in row y, column x is filled with m. */
  ghost predicate CompletesLine(g: Grid, x: Idx, y: Idx, m: int) {
    exists l: Line :: OnLine(l, y, x) && Filled(g, l, m)
  }

  /** (x + d) % 3 for a shift d of 1 or 2, the index arithmetic of the win test. */
  function Shift(x: Idx, d: int): (r: Idx)
    requires 1 <= d <= 2
    ensures r == (x + d) % 3
  {
    if x + d < 3 then x + d else x + d - 3
  }

  /**
   * hayGanador(x, y, marca) as written: x is the column and y the row of the move. It tests
   * the other two cells of the row, then of the column; an edge cell stops there; the
   * centre tests both diagonals, a corner with x == y the diagonal \, and the two other
   * corners the diagonal /.
   */
  function WinAsWritten(g: Grid, x: Idx, y: Idx, m: int): bool {
    if At(g, y, Shift(x, 1)) == m && At(g, y, Shift(x, 2)) == m then true
    else if At(g, Shift(y, 1), x) == m && At(g, Shift(y, 2), x) == m then true
    else if (x == 1 && y != 1) || (y == 1 && x != 1) then false
    else if x == 1 && y == 1 then
      (At(g, 0, 0) == m && At(g, 2, 2) == m) || (At(g, 2, 0) == m && At(g, 0, 2) == m)
    else if x == y then
      At(g, Shift(y, 1), Shift(x, 1)) == m && At(g, Shift(y, 2), Shift(x, 2)) == m
    else
      At(g, Shift(y, 2), Shift(x, 1)) == m && At(g, Shift(y, 1), Shift(x, 2)) == m
  }

  /**
   * Once m stands in row y, column x, the test reports a winner exactly when some line
   * through that cell is filled with m: it misses no line and reports no other.
   */
  lemma {:induction false} WinDetection(g: Grid, x: Idx, y: Idx, m: int)
    requires At(g, y, x) == m
    ensures WinAsWritten(g, x, y, m) <==> CompletesLine(g, x, y, m)
  {
    if WinAsWritten(g, x, y, m) {
      if At(g, y, Shift(x, 1)) == m && At(g, y, Shift(x, 2)) == m {
        assert OnLine(RowLine(y), y, x) && Filled(g, RowLine(y), m);
      } else if At(g, Shift(y, 1), x) == m && At(g, Shift(y, 2), x) == m {
        assert OnLine(ColLine(x), y, x) && Filled(g, ColLine(x), m);
      } else if x == 1 && y == 1 {
        if At(g, 0, 0) == m && At(g, 2, 2) == m {
          assert OnLine(MainDiagonal, y, x) && Filled(g, MainDiagonal, m);
        } else {
          assert OnLine(AntiDiagonal, y, x) && Filled(g, AntiDiagonal, m);
        }
      } else if x == y {
        assert OnLine(MainDiagonal, y, x) && Filled(g, MainDiagonal, m);
      } else {
        assert OnLine(AntiDiagonal, y, x) && Filled(g, AntiDiagonal, m);
      }
    }
    if CompletesLine(g, x, y, m) {
      var l: Line :| OnLine(l, y, x) && Filled(g, l, m);
      match l
      case RowLine(_) =>
      case ColLine(_) =>
      case MainDiagonal =>
      case AntiDiagonal =>
    }
  }

  /** An edge cell (exactly one coordinate 1) never wins through a diagonal. */
  lemma EdgeNeverDiagonal(g: Grid, x: Idx, y: Idx, m: int)
    requires (x == 1) != (y == 1) && At(g, y, x) == m
    ensures WinAsWritten(g, x, y, m) <==> Filled(g, RowLine(y), m) || Filled(g, ColLine(x), m)
  {
  }
}
