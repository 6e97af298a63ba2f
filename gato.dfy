/**
 * The game state object: a mutable 3x3 board with its move count, the player who moved
 * last, the win flag, the parent and the expanded successors. Every method is tied to the
 * value model: the board read as a Grid, the state read as a State.
 */
module Minimax {
  import opened Options
  import opened Grids
  import opened Win
  import opened Symmetry
  import opened Successors

  /** A 3x3 board array read as a Grid. */
  function GridOf(t: array2<int>): (g: Grid)
    reads t
    requires t.Length0 == 3 && t.Length1 == 3
  {
    Grid(t[0, 0], t[0, 1], t[0, 2], t[1, 0], t[1, 1], t[1, 2], t[2, 0], t[2, 1], t[2, 2])
  }

  /** Reading a cell of the Grid is reading the array. */
  lemma GridOfAt(t: array2<int>, i: Idx, j: Idx)
    requires t.Length0 == 3 && t.Length1 == 3
    ensures At(GridOf(t), i, j) == t[i, j]
  {
  }

  /**
   * The first n cells in row-major order of a agree with the cells of b that the
   * symmetry s maps onto them: a comparison loop has found no difference yet.
   */
  predicate AgreeBefore(a: Grid, b: Grid, s: Sym, n: int) {
    forall i: Idx, j: Idx :: 3 * i + j < n ==> At(a, i, j) == At(b, Source(s, i, j).0, Source(s, i, j).1)
  }

  /** Agreement on all nine cells is equality with the image. */
  lemma AgreeAll(a: Grid, b: Grid, s: Sym)
    ensures AgreeBefore(a, b, s, 9) <==> a == Apply(s, b)
  {
    ApplyAt(s, b);
    if AgreeBefore(a, b, s, 9) {
      forall i: Idx, j: Idx ensures At(a, i, j) == At(Apply(s, b), i, j) {
        assert 3 * i + j < 9;
      }
      Extensionality(a, Apply(s, b));
    }
  }

  /** One differing cell is enough to tell a from the image of b. */
  lemma CellMismatch(a: Grid, b: Grid, s: Sym, i: Idx, j: Idx)
    requires At(a, i, j) != At(b, Source(s, i, j).0, Source(s, i, j).1)
    ensures a != Apply(s, b)
  {
    ApplyAt(s, b);
  }

  /** reflejaIzq(t): a new board, t mirrored left-right. */
  method ReflejaIzq(t: array2<int>) returns (nuevo: array2<int>)
    requires t.Length0 == 3 && t.Length1 == 3
    ensures fresh(nuevo) && nuevo.Length0 == 3 && nuevo.Length1 == 3
    ensures GridOf(nuevo) == Apply(FlipV, GridOf(t))
  {
    nuevo := new int[3, 3];
    for i := 0 to t.Length0
      invariant AgreeBefore(GridOf(nuevo), GridOf(t), FlipV, 3 * i)
    {
      var j, k := 2, 0;
      while j >= 0
        invariant -1 <= j <= 2 && k == 2 - j
        invariant AgreeBefore(GridOf(nuevo), GridOf(t), FlipV, 3 * i + k)
      {
        nuevo[i, k] := t[i, j];
        j, k := j - 1, k + 1;
      }
    }
    AgreeAll(GridOf(nuevo), GridOf(t), FlipV);
  }

  /** reflejaArriba(t): a new board, t mirrored top-bottom. */
  method ReflejaArriba(t: array2<int>) returns (nuevo: array2<int>)
    requires t.Length0 == 3 && t.Length1 == 3
    ensures fresh(nuevo) && nuevo.Length0 == 3 && nuevo.Length1 == 3
    ensures GridOf(nuevo) == Apply(FlipH, GridOf(t))
  {
    nuevo := new int[3, 3];
    var i, ii := 2, 0;
    while i >= 0
      invariant -1 <= i <= 2 && ii == 2 - i
      invariant AgreeBefore(GridOf(nuevo), GridOf(t), FlipH, 3 * ii)
    {
      for j := 0 to 3
        invariant AgreeBefore(GridOf(nuevo), GridOf(t), FlipH, 3 * ii + j)
      {
        nuevo[ii, j] := t[i, j];
      }
      i, ii := i - 1, ii + 1;
    }
    AgreeAll(GridOf(nuevo), GridOf(t), FlipH);
  }

  /**
   * traspuesta(t) as written: each cell of the new board is copied from the new board
   * itself, never from t, so the result is all zeros whatever t holds.
   */
  method Traspuesta(t: array2<int>) returns (nueva: array2<int>)
    ensures fresh(nueva) && nueva.Length0 == 3 && nueva.Length1 == 3
    ensures GridOf(nueva) == Empty
  {
    nueva := new int[3, 3]((i, j) => 0);
    for i := 0 to 3
      invariant forall i', j' :: 0 <= i' < 3 && 0 <= j' < 3 ==> nueva[i', j'] == 0
    {
      for j := 0 to 3
        invariant forall i', j' :: 0 <= i' < 3 && 0 <= j' < 3 ==> nueva[i', j'] == 0
      {
        nueva[i, j] := nueva[j, i];
      }
    }
  }

  /** The transpose traspuesta was meant to compute: cell (i, j) of the result is t[j, i]. */
  method TraspuestaCorregida(t: array2<int>) returns (nueva: array2<int>)
    requires t.Length0 == 3 && t.Length1 == 3
    ensures fresh(nueva) && nueva.Length0 == 3 && nueva.Length1 == 3
    ensures GridOf(nueva) == Apply(Diag, GridOf(t))
  {
    nueva := new int[3, 3];
    for i := 0 to 3
      invariant AgreeBefore(GridOf(nueva), GridOf(t), Diag, 3 * i)
    {
      for j := 0 to 3
        invariant AgreeBefore(GridOf(nueva), GridOf(t), Diag, 3 * i + j)
      {
        nueva[i, j] := t[j, i];
      }
    }
    AgreeAll(GridOf(nueva), GridOf(t), Diag);
  }

  /** tablerosIguales(a, b): true exactly when the two boards hold the same cells. */
  method TablerosIguales(a: array2<int>, b: array2<int>) returns (r: bool)
    requires a.Length0 == 3 && a.Length1 == 3 && b.Length0 == 3 && b.Length1 == 3
    ensures r <==> GridOf(a) == GridOf(b)
  {
    for i := 0 to 3
      invariant AgreeBefore(GridOf(a), GridOf(b), Id, 3 * i)
    {
      for j := 0 to 3
        invariant AgreeBefore(GridOf(a), GridOf(b), Id, 3 * i + j)
      {
        if a[i, j] != b[i, j] {
          CellMismatch(GridOf(a), GridOf(b), Id, i, j);
          return false;
        }
      }
    }
    AgreeAll(GridOf(a), GridOf(b), Id);
    return true;
  }

  class Gato {
    /** The board, tablero[row, column]. */
    const tablero: array2<int>
    /** The state this one was generated from. */
    var padre: Gato?
    /** The expanded successors, None until generaSucesores fills them. */
    var sucesores: Option<set<Gato>>
    /** The player who moved on this board. */
    var jugador1: bool
    /** Whether the last move produced a winner. */
    var hayGanador: bool
    /** The number of moves made. */
    var tiradas: int

    ghost predicate Valid()
      reads this
    {
      tablero.Length0 == 3 && tablero.Length1 == 3
    }

    /** The board as a value. */
    function Board(): Grid
      reads this, tablero
      requires Valid()
    {
      GridOf(tablero)
    }

    /** The game-relevant fields as a value. */
    function Snapshot(): State
      reads this, tablero
      requires Valid()
    {
      State(Board(), tiradas, jugador1, hayGanador)
    }

    /** This object is a valid child of padre holding the value s. */
    ghost predicate ChildOf(parent: Gato, s: State)
      reads this, tablero
    {
      Valid() && padre == parent && Snapshot() == s
    }

    /** The initial state: empty board, no moves, second player, no winner. */
    constructor ()
      ensures Valid() && fresh(tablero)
      ensures Snapshot() == State(Empty, 0, false, false)
      ensures Marked(Board())
      ensures padre == null && sucesores == None
    {
      tablero := new int[3, 3]((i, j) => 0);
      padre := null;
      sucesores := None;
      jugador1 := false;
      hayGanador := false;
      tiradas := 0;
    }

    /** The copy constructor: board and move count of g, every other field as in a new object. */
    constructor Copia(g: Gato)
      requires g.Valid()
      ensures Valid() && fresh(tablero)
      ensures Snapshot() == State(g.Board(), g.tiradas, false, false)
      ensures padre == null && sucesores == None
    {
      var t := new int[3, 3];
      for i := 0 to 3
        invariant forall i', j' :: 0 <= i' < i && 0 <= j' < 3 ==> t[i', j'] == g.tablero[i', j']
      {
        for j := 0 to 3
          invariant forall i', j' :: 0 <= i' < i && 0 <= j' < 3 ==> t[i', j'] == g.tablero[i', j']
          invariant forall j' :: 0 <= j' < j ==> t[i, j'] == g.tablero[i, j']
        {
          t[i, j] := g.tablero[i, j];
        }
      }
      tablero := t;
      padre := null;
      sucesores := None;
      jugador1 := false;
      hayGanador := false;
      tiradas := g.tiradas;
    }

    /** The number of expanded successors, 0 before expansion or at a leaf. */
    method GetNumHijos() returns (n: int)
      ensures sucesores.Some? ==> n == |sucesores.value|
      ensures sucesores.None? ==> n == 0
    {
      if sucesores.Some? {
        n := |sucesores.value|;
      } else {
        n := 0;
      }
    }

    /**
     * hayGanador(x, y, marca): raises the win flag when the mark in column x, row y
     * completes a line, and otherwise leaves it as it was.
     */
    method HayGanador(x: Idx, y: Idx, marca: int)
      requires Valid()
      modifies this`hayGanador
      ensures hayGanador == (old(hayGanador) || WinAsWritten(Board(), x, y, marca))
    {
      if tablero[y, (x + 1) % 3] == marca && tablero[y, (x + 2) % 3] == marca {
        hayGanador := true;
        return;
      }
      if tablero[(y + 1) % 3, x] == marca && tablero[(y + 2) % 3, x] == marca {
        hayGanador := true;
        return;
      }
      if (x == 1 && y != 1) || (y == 1 && x != 1) {
        return;
      }
      if x == 1 && y == 1 {
        if tablero[0, 0] == marca && tablero[2, 2] == marca {
          hayGanador := true;
          return;
        }
        if tablero[2, 0] == marca && tablero[0, 2] == marca {
          hayGanador := true;
          return;
        }
      } else if x == y {
        if tablero[(y + 1) % 3, (x + 1) % 3] == marca && tablero[(y + 2) % 3, (x + 2) % 3] == marca {
          hayGanador := true;
          return;
        }
      } else {
        if tablero[(y + 2) % 3, (x + 1) % 3] == marca && tablero[(y + 1) % 3, (x + 2) % 3] == marca {
          hayGanador := true;
          return;
        }
      }
    }

    /** tiraEn(x, y): the move of Play, made in place with the mark of `jugador1`. */
    method TiraEn(x: Idx, y: Idx)
      requires Valid()
      modifies this`tiradas, this`hayGanador, tablero
      ensures Valid() && Snapshot() == Play(old(Snapshot()), x, y)
    {
      tiradas := tiradas + 1;
      var marca := if jugador1 then MARCA1 else MARCA2;
      tablero[y, x] := marca;
      assert Board() == With(old(Board()), y, x, marca);
      HayGanador(x, y, marca);
    }

    /**
     * tiraEn(x, y, jugador1): the same move with the mark of the given player; the field
     * `jugador1` is left as it was.
     */
    method TiraEnJugador(x: Idx, y: Idx, j1: bool)
      requires Valid()
      modifies this`tiradas, this`hayGanador, tablero
      ensures Valid()
      ensures Snapshot() == Play(old(Snapshot()).(jugador1 := j1), x, y).(jugador1 := old(jugador1))
    {
      tiradas := tiradas + 1;
      var marca := if j1 then MARCA1 else MARCA2;
      tablero[y, x] := marca;
      assert Board() == With(old(Board()), y, x, marca);
      HayGanador(x, y, marca);
    }

    /** hashCode: the sum of the cells weighted by the kernel {{1,2,1},{2,4,2},{1,2,1}}. */
    method HashCode() returns (hash: int)
      requires Valid()
      ensures hash == Hash(Board())
    {
      hash := 0;
      for i := 0 to 3
        invariant hash == HashPrefix(Board(), 3 * i)
      {
        for j := 0 to 3
          invariant hash == HashPrefix(Board(), 3 * i + j)
        {
          RowColOf(i, j);
          GridOfAt(tablero, i, j);
          hash := hash + Weight(i, j) * tablero[i, j];
        }
      }
      HashPrefixComplete(Board());
    }

    /** esIgual: the two boards are the same. */
    method EsIgual(otro: Gato) returns (r: bool)
      requires Valid() && otro.Valid()
      ensures r <==> Board() == Apply(Id, otro.Board())
    {
      for i := 0 to 3
        invariant AgreeBefore(Board(), otro.Board(), Id, 3 * i)
      {
        for j := 0 to 3
          invariant AgreeBefore(Board(), otro.Board(), Id, 3 * i + j)
        {
          if tablero[i, j] != otro.tablero[i, j] {
            CellMismatch(Board(), otro.Board(), Id, i, j);
            return false;
          }
        }
      }
      AgreeAll(Board(), otro.Board(), Id);
      return true;
    }

    /**
     * esSimetricoDiagonalInvertida as written: otro's board is compared with the transpose
     * of this board mirrored left-right, and traspuesta yields zeros, so the test holds
     * exactly when otro's board is empty.
     */
    method EsSimetricoDiagonalInvertida(otro: Gato) returns (r: bool)
      requires Valid() && otro.Valid()
      ensures r <==> otro.Board() == Empty
    {
      var tmp := otro.tablero;
      var tmp2 := ReflejaIzq(tablero);
      var t := Traspuesta(tmp2);
      r := TablerosIguales(tmp, t);
    }

    /**
     * esSimetricoDiagonalInvertida with only the transpose corrected: a left-right mirror
     * followed by the transpose is a quarter turn, so otro is this board turned 270 degrees,
     * not reflected over the diagonal \ its comment names.
     */
    method EsSimetricoDiagonalInvertidaConTraspuesta(otro: Gato) returns (r: bool)
      requires Valid() && otro.Valid()
      ensures r <==> otro.Board() == Apply(Rot270, Board())
    {
      var tmp := otro.tablero;
      var tmp2 := ReflejaIzq(tablero);
      var t := TraspuestaCorregida(tmp2);
      r := TablerosIguales(tmp, t);
    }

    /** The test esSimetricoDiagonalInvertida's comment describes: this board is otro reflected over the diagonal \. */
    method EsSimetricoDiagonalInvertidaCorregido(otro: Gato) returns (r: bool)
      requires Valid() && otro.Valid()
      ensures r <==> Board() == Apply(Diag, otro.Board())
    {
      for i := 0 to 3
        invariant AgreeBefore(Board(), otro.Board(), Diag, 3 * i)
      {
        for j := 0 to 3
          invariant AgreeBefore(Board(), otro.Board(), Diag, 3 * i + j)
        {
          if tablero[i, j] != otro.tablero[j, i] {
            CellMismatch(Board(), otro.Board(), Diag, i, j);
            return false;
          }
        }
      }
      AgreeAll(Board(), otro.Board(), Diag);
      return true;
    }

    /** esSimetricoDiagonal as written: like esSimetricoDiagonalInvertida, true exactly when otro's board is empty. */
    method EsSimetricoDiagonal(otro: Gato) returns (r: bool)
      requires Valid() && otro.Valid()
      ensures r <==> otro.Board() == Empty
    {
      var tmp := otro.tablero;
      var tmp2 := tablero;
      var t := Traspuesta(tmp2);
      r := TablerosIguales(tmp, t);
    }

    /**
     * esSimetricoDiagonal with only the transpose corrected: otro is this board reflected
     * over the diagonal \, not over the diagonal / its comment names.
     */
    method EsSimetricoDiagonalConTraspuesta(otro: Gato) returns (r: bool)
      requires Valid() && otro.Valid()
      ensures r <==> otro.Board() == Apply(Diag, Board())
    {
      var tmp := otro.tablero;
      var tmp2 := tablero;
      var t := TraspuestaCorregida(tmp2);
      r := TablerosIguales(tmp, t);
    }

    /**
     * The test esSimetricoDiagonal's comment describes: otro is this board reflected over
     * the diagonal /, built as the transpose turned half way (mirrored left-right and then
     * top-bottom).
     */
    method EsSimetricoDiagonalCorregido(otro: Gato) returns (r: bool)
      requires Valid() && otro.Valid()
      ensures r <==> otro.Board() == Apply(AntiDiag, Board())
    {
      var tmp := otro.tablero;
      var t := TraspuestaCorregida(tablero);
      var t2 := ReflejaIzq(t);
      var t3 := ReflejaArriba(t2);
      ComposeApply(FlipV, Diag, Board());
      ComposeApply(FlipH, Rot90, Board());
      r := TablerosIguales(tmp, t3);
    }

    /** esSimetricoVerticalmente: this board is otro's mirrored left-right. */
    method EsSimetricoVerticalmente(otro: Gato) returns (r: bool)
      requires Valid() && otro.Valid()
      ensures r <==> Board() == Apply(FlipV, otro.Board())
    {
      for i := 0 to 3
        invariant AgreeBefore(Board(), otro.Board(), FlipV, 3 * i)
      {
        for j := 0 to 3
          invariant AgreeBefore(Board(), otro.Board(), FlipV, 3 * i + j)
        {
          if tablero[i, j] != otro.tablero[i, 2 - j] {
            CellMismatch(Board(), otro.Board(), FlipV, i, j);
            return false;
          }
        }
      }
      AgreeAll(Board(), otro.Board(), FlipV);
      return true;
    }

    /** esSimetricoHorizontalmente as written: the same left-right test as the vertical one. */
    method EsSimetricoHorizontalmente(otro: Gato) returns (r: bool)
      requires Valid() && otro.Valid()
      ensures r <==> Board() == Apply(FlipV, otro.Board())
    {
      for i := 0 to 3
        invariant AgreeBefore(Board(), otro.Board(), FlipV, 3 * i)
      {
        for j := 0 to 3
          invariant AgreeBefore(Board(), otro.Board(), FlipV, 3 * i + j)
        {
          if tablero[i, j] != otro.tablero[i, 2 - j] {
            CellMismatch(Board(), otro.Board(), FlipV, i, j);
            return false;
          }
        }
      }
      AgreeAll(Board(), otro.Board(), FlipV);
      return true;
    }

    /** The top-bottom test esSimetricoHorizontalmente was meant to be. */
    method EsSimetricoHorizontalmenteCorregido(otro: Gato) returns (r: bool)
      requires Valid() && otro.Valid()
      ensures r <==> Board() == Apply(FlipH, otro.Board())
    {
      for i := 0 to 3
        invariant AgreeBefore(Board(), otro.Board(), FlipH, 3 * i)
      {
        for j := 0 to 3
          invariant AgreeBefore(Board(), otro.Board(), FlipH, 3 * i + j)
        {
          if tablero[i, j] != otro.tablero[2 - i, j] {
            CellMismatch(Board(), otro.Board(), FlipH, i, j);
            return false;
          }
        }
      }
      AgreeAll(Board(), otro.Board(), FlipH);
      return true;
    }

    /** esSimetrico90: this board is otro's turned 90 degrees clockwise. */
    method EsSimetrico90(otro: Gato) returns (r: bool)
      requires Valid() && otro.Valid()
      ensures r <==> Board() == Apply(Rot90, otro.Board())
    {
      for i := 0 to 3
        invariant AgreeBefore(Board(), otro.Board(), Rot90, 3 * i)
      {
        for j := 0 to 3
          invariant AgreeBefore(Board(), otro.Board(), Rot90, 3 * i + j)
        {
          if tablero[i, j] != otro.tablero[2 - j, i] {
            CellMismatch(Board(), otro.Board(), Rot90, i, j);
            return false;
          }
        }
      }
      AgreeAll(Board(), otro.Board(), Rot90);
      return true;
    }

    /** esSimetrico180 as written: this board is otro's mirrored top-bottom, not turned. */
    method EsSimetrico180(otro: Gato) returns (r: bool)
      requires Valid() && otro.Valid()
      ensures r <==> Board() == Apply(FlipH, otro.Board())
    {
      for i := 0 to 3
        invariant AgreeBefore(Board(), otro.Board(), FlipH, 3 * i)
      {
        for j := 0 to 3
          invariant AgreeBefore(Board(), otro.Board(), FlipH, 3 * i + j)
        {
          if tablero[i, j] != otro.tablero[2 - i, j] {
            CellMismatch(Board(), otro.Board(), FlipH, i, j);
            return false;
          }
        }
      }
      AgreeAll(Board(), otro.Board(), FlipH);
      return true;
    }

    /** The half turn esSimetrico180 was meant to test. */
    method EsSimetrico180Corregido(otro: Gato) returns (r: bool)
      requires Valid() && otro.Valid()
      ensures r <==> Board() == Apply(Rot180, otro.Board())
    {
      for i := 0 to 3
        invariant AgreeBefore(Board(), otro.Board(), Rot180, 3 * i)
      {
        for j := 0 to 3
          invariant AgreeBefore(Board(), otro.Board(), Rot180, 3 * i + j)
        {
          if tablero[i, j] != otro.tablero[2 - i, 2 - j] {
            CellMismatch(Board(), otro.Board(), Rot180, i, j);
            return false;
          }
        }
      }
      AgreeAll(Board(), otro.Board(), Rot180);
      return true;
    }

    /** esSimetrico270 as written: this board is otro's reflected over the diagonal /, not turned. */
    method EsSimetrico270(otro: Gato) returns (r: bool)
      requires Valid() && otro.Valid()
      ensures r <==> Board() == Apply(AntiDiag, otro.Board())
    {
      for i := 0 to 3
        invariant AgreeBefore(Board(), otro.Board(), AntiDiag, 3 * i)
      {
        for j := 0 to 3
          invariant AgreeBefore(Board(), otro.Board(), AntiDiag, 3 * i + j)
        {
          if tablero[i, j] != otro.tablero[2 - j, 2 - i] {
            CellMismatch(Board(), otro.Board(), AntiDiag, i, j);
            return false;
          }
        }
      }
      AgreeAll(Board(), otro.Board(), AntiDiag);
      return true;
    }

    /** The 270-degree clockwise turn esSimetrico270 was meant to test. */
    method EsSimetrico270Corregido(otro: Gato) returns (r: bool)
      requires Valid() && otro.Valid()
      ensures r <==> Board() == Apply(Rot270, otro.Board())
    {
      for i := 0 to 3
        invariant AgreeBefore(Board(), otro.Board(), Rot270, 3 * i)
      {
        for j := 0 to 3
          invariant AgreeBefore(Board(), otro.Board(), Rot270, 3 * i + j)
        {
          if tablero[i, j] != otro.tablero[j, 2 - i] {
            CellMismatch(Board(), otro.Board(), Rot270, i, j);
            return false;
          }
        }
      }
      AgreeAll(Board(), otro.Board(), Rot270);
      return true;
    }

    /**
     * equals: the eight tests in the order of the source, the first that holds answers
     * true; the answer is EqualsAsWritten of the two boards.
     */
    method Equals(otro: Gato) returns (r: bool)
      requires Valid() && otro.Valid()
      ensures r <==> EqualsAsWritten(Board(), otro.Board())
    {
      r := EsIgual(otro);
      if r { return; }
      r := EsSimetricoDiagonalInvertida(otro);
      if r { return; }
      r := EsSimetricoDiagonal(otro);
      if r { return; }
      r := EsSimetricoVerticalmente(otro);
      if r { return; }
      r := EsSimetricoHorizontalmente(otro);
      if r { return; }
      r := EsSimetrico90(otro);
      if r { return; }
      r := EsSimetrico180(otro);
      if r { return; }
      r := EsSimetrico270(otro);
    }

    /**
     * One pass of generaSucesores: a copy of this state with the other player and this
     * state as parent, which plays tiraEn(i, j) when the cell in row i, column j is free.
     */
    method NuevoHijo(i: Idx, j: Idx) returns (g: Gato)
      requires Valid()
      ensures fresh(g) && fresh(g.tablero) && g.Valid() && g.padre == this && g.sucesores == None
      ensures g.Snapshot() == Candidate(Snapshot(), 3 * i + j)
    {
      RowColOf(i, j);
      g := new Gato.Copia(this);
      g.jugador1 := !jugador1;
      g.padre := this;
      if g.tablero[i, j] == 0 {
        g.TiraEn(i, j);
      }
    }

    /**
     * generaSucesores: None (null) at a leaf, leaving `sucesores` as it was. Otherwise the
     * table hw holds a new child for each key of the as-written table Expand, with this
     * state as parent and Expand's value; each child has its own new board and no
     * successors, and `sucesores` is set to the children of hw: one per key.
     */
    method GeneraSucesores() returns (r: Option<set<Gato>>, ghost hw: map<int, Gato>)
      requires Valid()
      modifies this`sucesores
      ensures Snapshot() == old(Snapshot())
      ensures GameOver(Snapshot()) ==> r == None && sucesores == old(sucesores)
      ensures !GameOver(Snapshot()) ==>
        r == sucesores && r == Some(hw.Values) &&
        (forall h1, h2 :: h1 in hw && h2 in hw && h1 != h2 ==>
          hw[h1] != hw[h2] && hw[h1].tablero != hw[h2].tablero) &&
        Expand(Snapshot()).Some? && hw.Keys == Expand(Snapshot()).value.Keys &&
        forall h :: h in hw ==>
          fresh(hw[h]) && fresh(hw[h].tablero) && hw[h].sucesores == None &&
          hw[h].Valid() && hw[h].padre == this &&
          hw[h].Snapshot() == Expand(Snapshot()).value[h]
    {
      hw := map[];
      if hayGanador || tiradas == 9 {
        return None, hw;
      }
      ghost var p := Snapshot();
      var tabla: map<int, Gato> := map[];
      ghost var vals: map<int, State> := map[];
      for i := 0 to 3
        invariant Snapshot() == p
        invariant vals == Scan(p, 3 * i) && tabla.Keys == vals.Keys
        invariant forall h1, h2 :: h1 in tabla && h2 in tabla && h1 != h2 ==>
          tabla[h1] != tabla[h2] && tabla[h1].tablero != tabla[h2].tablero
        invariant forall h :: h in tabla ==>
          fresh(tabla[h]) && fresh(tabla[h].tablero) && tabla[h].sucesores == None &&
          tabla[h].ChildOf(this, vals[h])
      {
        for j := 0 to 3
          invariant Snapshot() == p
          invariant vals == Scan(p, 3 * i + j) && tabla.Keys == vals.Keys
          invariant forall h1, h2 :: h1 in tabla && h2 in tabla && h1 != h2 ==>
            tabla[h1] != tabla[h2] && tabla[h1].tablero != tabla[h2].tablero
          invariant forall h :: h in tabla ==>
            fresh(tabla[h]) && fresh(tabla[h].tablero) && tabla[h].sucesores == None &&
            tabla[h].ChildOf(this, vals[h])
        {
          var g := NuevoHijo(i, j);
          var h := g.HashCode();
          ScanStep(p, 3 * i + j, vals, g.Snapshot(), h);
          if h !in tabla && g.tiradas > g.padre.tiradas {
            tabla := tabla[h := g];
            vals := vals[h := g.Snapshot()];
          }
        }
      }
      hw := tabla;
      sucesores := Some(tabla.Values);
      r := sucesores;
    }
  }
}
