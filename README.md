# Gato: a verified model of the tic-tac-toe game state

This project models the `Gato` class of `src/Minimax.java`. `Gato` is one state of the
tic-tac-toe game tree. It holds:

- a 3x3 board `tablero` of cells 0 (empty), `MARCA1 = 1` or `MARCA2 = 4`;
- the move count `tiradas`;
- the player who moved on this board, `jugador1`;
- the win flag `hayGanador`;
- the parent `padre`;
- the expanded successors `sucesores`.

The state can play a move (`tiraEn`) and detect a win in constant time (`hayGanador`). It can
generate its successors (`generaSucesores`), keeping one successor per hash value of the board,
and compare boards up to the symmetries of the square (`esIgual`, the `esSimetrico*` tests,
`equals`). Its hash is the board weighted by the kernel {{1,2,1},{2,4,2},{1,2,1}} (`hashCode`).

The modules:

- `Grids` (grids.dfy): the board as a value `Grid`, the two marks, cell update `With`,
  the weighted `Hash`.
- `Win` (win.dfy): the eight lines of the board. `WinAsWritten` is the constant-time test
  exactly as the Java writes it, and `WinDetection` proves it equal to "some line through
  the move is filled".
- `Symmetry` (symmetry.dfy): the eight symmetries `Sym` with their group table, the
  equivalence `Equivalent` they define, `EqualsAsWritten` (what `equals` decides as written)
  and a canonical form `Canon`.
- `Successors` (successors.dfy): the state as a value `State` and the move `Play`.
  `Child` is the state a pass starts from: the copy constructor (lines 24-31) keeps the
  parent's board and count, and line 102 gives it the other player.
  `Expand` is `generaSucesores` as written: a row-major scan filling a table keyed by hash.
  `ExpandFixed` is the corrected generator: it plays the cell it tests and keys the table by
  canonical form.
- `Minimax` (gato.dfy): the class `Gato` over an `array2<int>` board, the board helpers
  `reflejaIzq`, `reflejaArriba`, `traspuesta` and `tablerosIguales`, and the methods of the
  class. Each method is proved against the value model:
  - `Board()` reads the array as a `Grid`;
  - `Snapshot()` reads the fields as a `State`.

Indices the Java uses as `(x, y)` with `tablero[y][x]` keep that convention: `x` is the
column, `y` the row. The linked list of successors is modelled as a set of objects, since
it is filled from `Hashtable.values()`, whose order is unspecified.

## Model

| member | source | states |
|---|---|---|
| Grids.Marca | src/Minimax.java:73 | the mark written is MARCA1 exactly when `jugador1` holds, and is always one of the two marks |
| Grids.WithAt | src/Minimax.java:74 | writing a cell changes that cell and leaves every other cell as it was |
| Grids.WithMarked | src/Minimax.java:74 | writing a mark into a board whose cells are all empty or marks keeps it so |
| Grids.HashPrefixComplete | src/Minimax.java:275-279 | after the nine passes of the hash loop the running sum is the weighted sum of the board |
| Grids.HashBound | src/Minimax.java:272-281 | the hash of a board of empty cells and marks lies between 0 and 16 * MARCA2 |
| Grids.HashWith | src/Minimax.java:277 | writing v into a cell changes the hash by the cell's kernel weight times the change of the cell's value |
| Win.Shift | src/Minimax.java:47 | the if-form shift equals `(x + d) % 3` for d of 1 or 2 |
| Win.WinDetection | src/Minimax.java:45-64 | once the mark stands at the move's cell, the constant-time test holds exactly when some row, column or diagonal through that cell is filled with the mark |
| Win.EdgeNeverDiagonal | src/Minimax.java:51 | for an edge cell the test holds exactly when the row or the column of the move is filled |
| Symmetry.ApplyAt | src/Minimax.java:171-172 | each symmetry's image takes every cell from the position its index map names |
| Symmetry.ComposeApply | src/Minimax.java:171 | applying two symmetries in turn is applying their product in the group table |
| Symmetry.InverseApply | src/Minimax.java:171 | every symmetry is undone by its inverse, on either side |
| Symmetry.ReflectionsAreInvolutions | src/Minimax.java:127-155 | the left-right mirror, the top-bottom mirror and the transpose are each their own inverse |
| Symmetry.HashInvariant | src/Minimax.java:272-281 | the kernel is symmetric, so the hash of every image of a board equals the hash of the board |
| Symmetry.MarkedInvariant | src/Minimax.java:169-172 | a symmetry only moves cells, so it keeps a board of empty cells and marks |
| Symmetry.EquivalentReflexive | src/Minimax.java:249-252 | every board is equivalent to itself |
| Symmetry.EquivalentSymmetric | src/Minimax.java:249-252 | equivalence holds in both directions |
| Symmetry.EquivalentTransitive | src/Minimax.java:249-252 | equivalence is transitive |
| Symmetry.EqualsAsWrittenReflexive | src/Minimax.java:254-256 | `equals` accepts every board against itself |
| Symmetry.EqualsAsWrittenSound | src/Minimax.java:254-268 | when the other board is not empty, every pair `equals` accepts is a true symmetry |
| Symmetry.EqualsAsWrittenAcceptsEmpty | src/Minimax.java:258-259 | `equals` accepts every board against the empty board |
| Symmetry.EqualsAsWrittenNotSymmetric | src/Minimax.java:254-268 | a board with one corner mark `equals` the empty board but not conversely, and the two are not equivalent |
| Symmetry.EqualsAsWrittenMissesHalfTurn | src/Minimax.java:230-237 | a board and its half turn are equivalent, yet `equals` rejects them |
| Symmetry.WrittenTestsDiffer | src/Minimax.java:210-247 | the mirror that the horizontal test uses, the flip that the 180 test uses and the reflection that the 270 test uses each differ, on some board, from the symmetry the test's name promises |
| Symmetry.DiagonalTestsDiffer | src/Minimax.java:184-197 | a left-right mirror followed by the transpose is the 270-degree turn; on some board that turn differs from the reflection over \, and the reflection over \ differs from the reflection over / |
| Symmetry.CanonEquivalent | src/Minimax.java:249-252 | the canonical form of a board is equivalent to it |
| Symmetry.CanonBelowImages | src/Minimax.java:249-252 | the canonical form of a board is below every image of every board equivalent to it |
| Symmetry.CanonExact | src/Minimax.java:249-252 | two boards have the same canonical form exactly when they are equivalent |
| Successors.Play | src/Minimax.java:71-76 | a move adds one to the count, keeps the player, writes the player's mark into row y, column x, and raises the flag exactly when it was raised or the mark completes a line through the cell |
| Successors.Candidate | src/Minimax.java:100-106 | pass k as written: when the cell in row Row(k), column Col(k) is free, the candidate has one more move and the other player, its board is the parent's with that player's mark in the transposed cell (row Col(k), column Row(k)), and its flag is raised exactly when the mark completes a line there; otherwise it keeps the parent's board and count |
| Successors.ScanKeys | src/Minimax.java:96-114 | after n passes every key is the hash of its entry, there are at most n entries, and the hash of every played candidate is a key |
| Successors.ScanKeepsFirst | src/Minimax.java:108-112 | each key holds the first candidate, in row-major order, whose cell was free and whose board has that hash |
| Successors.ExpandAsWritten | src/Minimax.java:91-116 | a live state's successors have distinct hashes, number at most nine, have one more move and the other player, and are the parent's board with one new mark at the transposed position of a free cell |
| Successors.PlayKeepsMarked | src/Minimax.java:71-76 | a move keeps a board of empty cells and marks |
| Successors.ExpandKeepsMarked | src/Minimax.java:91-116 | every successor of a board of empty cells and marks is again one, and every key lies in 0..64 |
| Successors.ExpandLeaf | src/Minimax.java:92 | a state with a winner or nine moves yields nothing |
| Successors.ExpandKeepsFirst | src/Minimax.java:96-115 | a hash is a key exactly when some free pass produces it, and that key holds the first such candidate |
| Successors.CandidateHash | src/Minimax.java:105-108 | a played candidate's hash is the parent's hash plus the written cell's weight times the mark's change |
| Successors.EmptyBoardCandidate | src/Minimax.java:98-108 | from the empty board every pass is free and its hash is the weight of the written cell |
| Successors.EmptyBoardKeyOf | src/Minimax.java:96-112 | from the empty board the weight of every written cell is a key |
| Successors.EmptyBoardKeysWithin | src/Minimax.java:96-112 | from the empty board every key is 1, 2 or 4 |
| Successors.EmptyBoardThreeMoves | src/Minimax.java:91-116 | from the empty board exactly three successors are kept, with hashes 1, 2 and 4: a corner, an edge and the centre |
| Successors.OverwriteExample | src/Minimax.java:105-106 | with MARCA2 in row 0, column 1, a kept successor has that MARCA2 overwritten by MARCA1 |
| Successors.EquivalentSameHash | src/Minimax.java:272-281 | equivalent boards have the same hash |
| Successors.CornerReplyHash | src/Minimax.java:98-108 | after MARCA2 in the top-left corner every other cell is free and each reply's hash is 4 plus the written cell's weight |
| Successors.HashMergesInequivalent | src/Minimax.java:108-111 | after MARCA2 in the top-left corner, the reply in the opposite corner is equivalent to no kept successor |
| Successors.CandidateFixed | src/Minimax.java:100-106 | the corrected pass k: when the cell in row Row(k), column Col(k) is free, the candidate has one more move and the other player, its board is the parent's with that player's mark in that same cell, and its flag is raised exactly when the mark completes a line there; otherwise it keeps the parent's board and count |
| Successors.ScanFixedKeys | src/Minimax.java:108-111 | after n corrected passes every key is the canonical form of its entry |
| Successors.ScanFixedSize | src/Minimax.java:96-114 | after n corrected passes there are at most n entries |
| Successors.ScanFixedComplete | src/Minimax.java:108-111 | after n corrected passes the canonical form of every played candidate is a key |
| Successors.ScanFixedEntries | src/Minimax.java:98-112 | every entry of the corrected table is the candidate of a free pass |
| Successors.ExpandFixedShape | src/Minimax.java:85-116 | the corrected successors number at most nine, have one more move and the other player, are the parent's board with one new mark in a free cell, and have their flag raised exactly when that mark completes a line |
| Successors.ExpandFixedExact | src/Minimax.java:85-90 | no two corrected successors are equivalent, and every legal move is equivalent to a kept successor |
| Successors.FixedKeepsOppositeCorner | src/Minimax.java:108-111 | the corrected generator keeps a successor equivalent to the opposite-corner reply that hashing loses |
| Minimax.AgreeAll | src/Minimax.java:175-182 | agreement of all nine cells with an image is equality with that image |
| Minimax.CellMismatch | src/Minimax.java:178 | one differing cell shows that a board is not the image |
| Minimax.ReflejaIzq | src/Minimax.java:127-135 | returns a new 3x3 board that is the argument mirrored left-right |
| Minimax.ReflejaArriba | src/Minimax.java:137-145 | returns a new 3x3 board that is the argument mirrored top-bottom |
| Minimax.Traspuesta | src/Minimax.java:147-155 | as written, returns a new board that is empty whatever the argument |
| Minimax.TraspuestaCorregida | src/Minimax.java:147-155 | returns a new board that is the argument's transpose |
| Minimax.TablerosIguales | src/Minimax.java:157-165 | true exactly when the two boards hold the same cells |
| Minimax.Gato.constructor | src/Minimax.java:21 | the initial state: empty board, no moves, second player, no winner, no parent, no successors; its board is one of empty cells and marks |
| Minimax.Gato.Copia | src/Minimax.java:24-31 | a new board equal to the copied one, the same count, and every other field as in a new object |
| Minimax.Gato.GetNumHijos | src/Minimax.java:34-37 | the number of expanded successors, or 0 when none were expanded |
| Minimax.Gato.HayGanador | src/Minimax.java:45-64 | the flag becomes set exactly when it was set or the test of the move holds; nothing else changes |
| Minimax.Gato.TiraEn | src/Minimax.java:71-76 | the new state is Play of the old one: one more move, the mark in row y, column x, and the win flag |
| Minimax.Gato.TiraEnJugador | src/Minimax.java:78-83 | the same move with the mark of the given player, leaving `jugador1` as it was |
| Minimax.Gato.HashCode | src/Minimax.java:272-281 | the result is the kernel-weighted sum of the board |
| Minimax.Gato.EsIgual | src/Minimax.java:175-182 | true exactly when the two boards are the same |
| Minimax.Gato.EsSimetricoDiagonalInvertida | src/Minimax.java:185-189 | as written, true exactly when the other board is empty |
| Minimax.Gato.EsSimetricoDiagonalInvertidaConTraspuesta | src/Minimax.java:185-189 | the code with only the transpose corrected: true exactly when the other board is this one turned 270 degrees clockwise |
| Minimax.Gato.EsSimetricoDiagonalInvertidaCorregido | src/Minimax.java:184-189 | the test the comment describes: true exactly when this board is the other reflected over the diagonal \ |
| Minimax.Gato.EsSimetricoDiagonal | src/Minimax.java:192-197 | as written, true exactly when the other board is empty |
| Minimax.Gato.EsSimetricoDiagonalConTraspuesta | src/Minimax.java:192-197 | the code with only the transpose corrected: true exactly when the other board is this one reflected over the diagonal \ |
| Minimax.Gato.EsSimetricoDiagonalCorregido | src/Minimax.java:191-197 | the test the comment describes: true exactly when the other board is this one reflected over the diagonal / |
| Minimax.Gato.EsSimetricoVerticalmente | src/Minimax.java:200-207 | true exactly when this board is the other mirrored left-right |
| Minimax.Gato.EsSimetricoHorizontalmente | src/Minimax.java:210-217 | as written, true exactly when this board is the other mirrored left-right, the vertical test again |
| Minimax.Gato.EsSimetricoHorizontalmenteCorregido | src/Minimax.java:210-217 | true exactly when this board is the other mirrored top-bottom |
| Minimax.Gato.EsSimetrico90 | src/Minimax.java:220-227 | true exactly when this board is the other turned 90 degrees clockwise |
| Minimax.Gato.EsSimetrico180 | src/Minimax.java:230-237 | as written, true exactly when this board is the other mirrored top-bottom |
| Minimax.Gato.EsSimetrico180Corregido | src/Minimax.java:230-237 | true exactly when this board is the other turned half way |
| Minimax.Gato.EsSimetrico270 | src/Minimax.java:240-247 | as written, true exactly when this board is the other reflected over the anti-diagonal |
| Minimax.Gato.EsSimetrico270Corregido | src/Minimax.java:240-247 | true exactly when this board is the other turned 270 degrees clockwise |
| Minimax.Gato.Equals | src/Minimax.java:254-268 | true exactly when one of the eight tests, tried in the source's order, holds (`EqualsAsWritten`) |
| Minimax.Gato.NuevoHijo | src/Minimax.java:100-106 | a new child with its own new board and no successors, whose parent is this state and whose value is the as-written candidate of pass 3i + j |
| Minimax.Gato.GeneraSucesores | src/Minimax.java:91-116 | at a leaf returns None and changes nothing; otherwise it stores and returns the set of new children, one per key of the as-written table. Distinct keys hold distinct children with distinct boards. Each child has its own new board, no successors, this state as parent and that key's state as value |

## Left out

- `toString` and the `println` in `generaSucesores` are output only and are not modelled.
- `decision`, the `Accion` class and `main` are outside the game state and are not part of this model.
- `sucesores` is a set of objects, not a `LinkedList` in `Hashtable.values()` order, because that order is unspecified.
- Java `int` overflow is not modelled. The count stays at most 9 because a state with 9 moves is never expanded. Every board reached from the empty board holds only empty cells and marks (Successors.ExpandKeepsMarked), so its hash is at most 64 (Grids.HashBound).
- Minimax.Gato.HayGanador, Minimax.Gato.TiraEn, Minimax.Gato.TiraEnJugador and Minimax.Gato.NuevoHijo take indices in 0..2 only. In the source, out-of-range indices reach `hayGanador` only through `tiraEn`, where the write `tablero[y][x] = marca` (line 74) throws `ArrayIndexOutOfBoundsException` after `tiradas++`. Called directly with an out-of-range y, `hayGanador` throws at `tablero[y]` on line 47. With an in-range y and x >= 3 or x = -1, line 47 reduces only x with `% 3` to cells of the board; when its row test holds it sets the flag and returns normally, and otherwise line 49 throws on the unreduced `[x]`. For x <= -2 Java's `%` keeps the sign of the dividend, so the call always throws, at line 47 or at line 49. That direct use is not modelled, and no caller makes it.
- Minimax.Gato.Equals takes a `Gato`, not an `Object`. The cast failure and the null argument are not modelled.
- Minimax.Gato.GeneraSucesores: the number of children is not tied to the number of keys. The contract states that the children of distinct keys are distinct objects instead.
- Minimax.Gato.GetNumHijos: ties the answer to the `sucesores` field, not to the count of a particular expansion.

## Findings

| source | as written | input that shows it | evidently intended | confidence | as-written member | corrected member |
|---|---|---|---|---|---|---|
| src/Minimax.java:151 | `nueva[i][j] = nueva[j][i]` reads the new array, so `traspuesta` returns zeros | any board, e.g. MARCA1 in row 0, column 1 | `nueva[i][j] = t[j][i]`, the transpose | not executed | Minimax.Traspuesta | Minimax.TraspuestaCorregida |
| src/Minimax.java:185-197 | both diagonal tests compare with the zeros of `traspuesta`, so each holds exactly when the other board is empty | this board MARCA2 in the top-left corner, the other board empty | compare with the transpose | not executed | Minimax.Gato.EsSimetricoDiagonalInvertida, Minimax.Gato.EsSimetricoDiagonal, Symmetry.EqualsAsWrittenAcceptsEmpty | Minimax.Gato.EsSimetricoDiagonalInvertidaConTraspuesta, Minimax.Gato.EsSimetricoDiagonalConTraspuesta |
| src/Minimax.java:187-188 | even with the transpose corrected, a left-right mirror followed by the transpose is the 270-degree turn, not the reflection over \ of the comment at line 184 | Grid(MARCA1, MARCA2, 0, ...) against its reflection over \ | the reflection over \ | not executed | Minimax.Gato.EsSimetricoDiagonalInvertidaConTraspuesta, Symmetry.DiagonalTestsDiffer | Minimax.Gato.EsSimetricoDiagonalInvertidaCorregido |
| src/Minimax.java:194-195 | even with the transpose corrected, the transpose is the reflection over \, not the reflection over / of the comment at line 191 | Grid(MARCA1, MARCA2, 0, ...) against its reflection over / | the reflection over / | not executed | Minimax.Gato.EsSimetricoDiagonalConTraspuesta, Symmetry.DiagonalTestsDiffer | Minimax.Gato.EsSimetricoDiagonalCorregido |
| src/Minimax.java:105-106 | the test reads `tablero[i][j]` but `tiraEn(i, j)` writes `tablero[j][i]` (line 74), so a mark can be overwritten | MARCA2 in row 0, column 1, one move made: pass 3 tests row 1, column 0 and overwrites the MARCA2 with MARCA1 | play the tested cell | not executed | Successors.OverwriteExample | Successors.ExpandFixedShape |
| src/Minimax.java:108-111 | successors are keyed by hash, and inequivalent boards can share a hash | MARCA2 in the top-left corner: replies in the bottom-left and bottom-right corners both hash to 5 | keep one successor per symmetry class | not executed | Successors.HashMergesInequivalent | Successors.ExpandFixedExact |
| src/Minimax.java:213 | the horizontal test compares with `otro.tablero[i][2-j]`, the vertical mirror | Grid(MARCA1, MARCA2, 0, ...) against its top-bottom mirror | `otro.tablero[2-i][j]` | not executed | Minimax.Gato.EsSimetricoHorizontalmente, Symmetry.WrittenTestsDiffer | Minimax.Gato.EsSimetricoHorizontalmenteCorregido |
| src/Minimax.java:233 | the 180 test compares with `otro.tablero[2-i][j]`, a top-bottom mirror | Grid(MARCA1, MARCA2, 0, ...) against its half turn | `otro.tablero[2-i][2-j]` | not executed | Minimax.Gato.EsSimetrico180, Symmetry.EqualsAsWrittenMissesHalfTurn | Minimax.Gato.EsSimetrico180Corregido |
| src/Minimax.java:243 | the 270 test compares with `otro.tablero[2-j][2-i]`, the reflection over / | Grid(MARCA1, MARCA2, 0, ...) against its 270-degree turn | `otro.tablero[j][2-i]` | not executed | Minimax.Gato.EsSimetrico270, Symmetry.WrittenTestsDiffer | Minimax.Gato.EsSimetrico270Corregido |
| src/Minimax.java:254-264 | `equals` accepts every board against the empty board and is not symmetric | a = MARCA2 in the top-left corner, b = empty | true equivalence under the eight symmetries | not executed | Minimax.Gato.Equals, Symmetry.EqualsAsWrittenNotSymmetric | Symmetry.EquivalentSymmetric |
