/** The 3x3 board of the game as a value, the two marks and the weighted hash. */
module Grids {

  /** A row or column index of the board. */
  type Idx = k: int | 0 <= k < 3

  /** Cell value of the first player's mark. */
  const MARCA1: int := 1
  /** Cell value of the second player's mark. */
  const MARCA2: int := 4

  /** The board by cells: field cRC is the cell in row R, column C (`tablero[R][C]`). */
  datatype Grid = Grid(c00: int, c01: int, c02: int,
                       c10: int, c11: int, c12: int,
                       c20: int, c21: int, c22: int)

  /** The board of a new game: every cell 0 (empty). */
  const Empty: Grid := Grid(0, 0, 0, 0, 0, 0, 0, 0, 0)

  /** The cell in row r, column c. */
  function At(g: Grid, r: Idx, c: Idx): int {
    if r == 0 then (if c == 0 then g.c00 else if c == 1 then g.c01 else g.c02)
    else if r == 1 then (if c == 0 then g.c10 else if c == 1 then g.c11 else g.c12)
    else (if c == 0 then g.c20 else if c == 1 then g.c21 else g.c22)
  }

  /** The board g with the cell in row r, column c replaced by v. */
  function With(g: Grid, r: Idx, c: Idx, v: int): Grid {
    if r == 0 then (if c == 0 then g.(c00 := v) else if c == 1 then g.(c01 := v) else g.(c02 := v))
    else if r == 1 then (if c == 0 then g.(c10 := v) else if c == 1 then g.(c11 := v) else g.(c12 := v))
    else (if c == 0 then g.(c20 := v) else if c == 1 then g.(c21 := v) else g.(c22 := v))
  }

  /** With changes the one cell it names and no other. */
  lemma WithAt(g: Grid, r: Idx, c: Idx, v: int)
    ensures forall i: Idx, j: Idx :: At(With(g, r, c, v), i, j) == if i == r && j == c then v else At(g, i, j)
  {
  }

  /** Two boards that agree cell by cell are the same board. */
  lemma Extensionality(a: Grid, b: Grid)
    requires forall i: Idx, j: Idx :: At(a, i, j) == At(b, i, j)
    ensures a == b
  {
    assert At(a, 0, 0) == At(b, 0, 0) && At(a, 0, 1) == At(b, 0, 1) && At(a, 0, 2) == At(b, 0, 2);
    assert At(a, 1, 0) == At(b, 1, 0) && At(a, 1, 1) == At(b, 1, 1) && At(a, 1, 2) == At(b, 1, 2);
    assert At(a, 2, 0) == At(b, 2, 0) && At(a, 2, 1) == At(b, 2, 1) && At(a, 2, 2) == At(b, 2, 2);
  }

  /** The mark written by a player: MARCA1 when `jugador1` holds, else MARCA2. */
  function Marca(jugador1: bool): (m: int)
    ensures m == MARCA1 <==> jugador1
    ensures m == MARCA1 || m == MARCA2
  {
    if jugador1 then MARCA1 else MARCA2
  }

  /** A cell value the game can produce: empty or one of the two marks. */
  predicate IsCell(v: int) {
    v == 0 || v == MARCA1 || v == MARCA2
  }

  /** Every cell of g is empty or holds a mark. */
  predicate Marked(g: Grid) {
    forall i: Idx, j: Idx :: IsCell(At(g, i, j))
  }

  /** Writing a mark into a marked board keeps it marked. */
  lemma WithMarked(g: Grid, r: Idx, c: Idx, v: int)
    requires Marked(g) && IsCell(v)
    ensures Marked(With(g, r, c, v))
  {
    WithAt(g, r, c, v);
  }

  /** The hash kernel {{1,2,1},{2,4,2},{1,2,1}}. */
  function Weight(r: Idx, c: Idx): int {
    if r == 1 && c == 1 then 4 else if r == 1 || c == 1 then 2 else 1
  }

  /** The weighted sum of the cells with the kernel as weights (the weights written out). */
  function Hash(g: Grid): int {
    g.c00 + 2 * g.c01 + g.c02 +
    2 * g.c10 + 4 * g.c11 + 2 * g.c12 +
    g.c20 + 2 * g.c21 + g.c22
  }

  /** Row and column of the k-th cell in row-major order. */
  function Row(k: nat): Idx
    requires k < 9
  {
    if k < 3 then 0 else if k < 6 then 1 else 2
  }

  function Col(k: nat): Idx
    requires k < 9
  {
    if k < 3 then k else if k < 6 then k - 3 else k - 6
  }

  /** The weighted sum of the first n cells in row-major order: what the hash loop has added after n passes. */
  function HashPrefix(g: Grid, n: nat): int
    requires n <= 9
  {
    if n == 0 then 0
    else HashPrefix(g, n - 1) + Weight(Row(n - 1), Col(n - 1)) * At(g, Row(n - 1), Col(n - 1))
  }

  /** After all nine passes the running sum is the hash. */
  lemma HashPrefixComplete(g: Grid)
    ensures HashPrefix(g, 9) == Hash(g)
  {
    assert HashPrefix(g, 1) == At(g, 0, 0);
    assert HashPrefix(g, 2) == HashPrefix(g, 1) + 2 * At(g, 0, 1);
    assert HashPrefix(g, 3) == HashPrefix(g, 2) + At(g, 0, 2);
    assert HashPrefix(g, 4) == HashPrefix(g, 3) + 2 * At(g, 1, 0);
    assert HashPrefix(g, 5) == HashPrefix(g, 4) + 4 * At(g, 1, 1);
    assert HashPrefix(g, 6) == HashPrefix(g, 5) + 2 * At(g, 1, 2);
    assert HashPrefix(g, 7) == HashPrefix(g, 6) + At(g, 2, 0);
    assert HashPrefix(g, 8) == HashPrefix(g, 7) + 2 * At(g, 2, 1);
  }

  /** The k-th cell in row-major order sits at position 3 * row + column. */
  lemma RowColOf(i: Idx, j: Idx)
    ensures Row(3 * i + j) == i && Col(3 * i + j) == j
  {
  }

  /** With every cell empty or a mark the hash lies in 0..64 (all cells MARCA2 give 16 * 4). */
  lemma HashBound(g: Grid)
    requires Marked(g)
    ensures 0 <= Hash(g) <= 16 * MARCA2
  {
    forall i: Idx, j: Idx ensures 0 <= At(g, i, j) <= MARCA2 {
      assert IsCell(At(g, i, j));
    }
    assert Hash(g) == At(g, 0, 0) + 2 * At(g, 0, 1) + At(g, 0, 2) +
      2 * At(g, 1, 0) + 4 * At(g, 1, 1) + 2 * At(g, 1, 2) +
      At(g, 2, 0) + 2 * At(g, 2, 1) + At(g, 2, 2);
  }

  /** Writing v into a cell changes the hash by that cell's weight times the change of its value. */
  lemma HashWith(g: Grid, r: Idx, c: Idx, v: int)
    ensures Hash(With(g, r, c, v)) == Hash(g) + Weight(r, c) * (v - At(g, r, c))
  {
  }
}
