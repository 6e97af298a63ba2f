/**
 * The eight symmetries of the square acting on boards, the symmetry tests of the
 * game state as they are written, the equivalence they were meant to decide, and a
 * canonical representative of each equivalence class.
 */
module Symmetry {
  import opened Grids

  /**
   * The dihedral group of order 8. Rotations turn the board clockwise; FlipV mirrors
   * left-right (column j goes to 2 - j), FlipH mirrors top-bottom, Diag reflects over
   * the main diagonal \ (the transpose) and AntiDiag over the diagonal /.
   */
  datatype Sym = Id | Rot90 | Rot180 | Rot270 | FlipV | FlipH | Diag | AntiDiag

  /** Where the cell of row i, column j of Apply(s, g) is taken from in g. */
  function Source(s: Sym, i: Idx, j: Idx): (Idx, Idx) {
    match s
    case Id => (i, j)
    case Rot90 => (2 - j, i)
    case Rot180 => (2 - i, 2 - j)
    case Rot270 => (j, 2 - i)
    case FlipV => (i, 2 - j)
    case FlipH => (2 - i, j)
    case Diag => (j, i)
    case AntiDiag => (2 - j, 2 - i)
  }

  /** The image of a board under a symmetry, written out cell by cell. */
  function Apply(s: Sym, g: Grid): Grid {
    match s
    case Id => g
    case Rot90 => Grid(g.c20, g.c10, g.c00, g.c21, g.c11, g.c01, g.c22, g.c12, g.c02)
    case Rot180 => Grid(g.c22, g.c21, g.c20, g.c12, g.c11, g.c10, g.c02, g.c01, g.c00)
    case Rot270 => Grid(g.c02, g.c12, g.c22, g.c01, g.c11, g.c21, g.c00, g.c10, g.c20)
    case FlipV => Grid(g.c02, g.c01, g.c00, g.c12, g.c11, g.c10, g.c22, g.c21, g.c20)
    case FlipH => Grid(g.c20, g.c21, g.c22, g.c10, g.c11, g.c12, g.c00, g.c01, g.c02)
    case Diag => Grid(g.c00, g.c10, g.c20, g.c01, g.c11, g.c21, g.c02, g.c12, g.c22)
    case AntiDiag => Grid(g.c22, g.c12, g.c02, g.c21, g.c11, g.c01, g.c20, g.c10, g.c00)
  }

  /** Apply takes every cell from the position Source names. */
  lemma ApplyAt(s: Sym, g: Grid)
    ensures forall i: Idx, j: Idx :: At(Apply(s, g), i, j) == At(g, Source(s, i, j).0, Source(s, i, j).1)
  {
  }

  /** Group multiplication: Compose(s, t) is "first t, then s". */
  function Compose(s: Sym, t: Sym): Sym {
    match s
    case Id => (match t
      case Id => Id case Rot90 => Rot90 case Rot180 => Rot180 case Rot270 => Rot270
      case FlipV => FlipV case FlipH => FlipH case Diag => Diag case AntiDiag => AntiDiag)
    case Rot90 => (match t
      case Id => Rot90 case Rot90 => Rot180 case Rot180 => Rot270 case Rot270 => Id
      case FlipV => AntiDiag case FlipH => Diag case Diag => FlipV case AntiDiag => FlipH)
    case Rot180 => (match t
      case Id => Rot180 case Rot90 => Rot270 case Rot180 => Id case Rot270 => Rot90
      case FlipV => FlipH case FlipH => FlipV case Diag => AntiDiag case AntiDiag => Diag)
    case Rot270 => (match t
      case Id => Rot270 case Rot90 => Id case Rot180 => Rot90 case Rot270 => Rot180
      case FlipV => Diag case FlipH => AntiDiag case Diag => FlipH case AntiDiag => FlipV)
    case FlipV => (match t
      case Id => FlipV case Rot90 => Diag case Rot180 => FlipH case Rot270 => AntiDiag
      case FlipV => Id case FlipH => Rot180 case Diag => Rot90 case AntiDiag => Rot270)
    case FlipH => (match t
      case Id => FlipH case Rot90 => AntiDiag case Rot180 => FlipV case Rot270 => Diag
      case FlipV => Rot180 case FlipH => Id case Diag => Rot270 case AntiDiag => Rot90)
    case Diag => (match t
      case Id => Diag case Rot90 => FlipH case Rot180 => AntiDiag case Rot270 => FlipV
      case FlipV => Rot270 case FlipH => Rot90 case Diag => Id case AntiDiag => Rot180)
    case AntiDiag => (match t
      case Id => AntiDiag case Rot90 => FlipV case Rot180 => Diag case Rot270 => FlipH
      case FlipV => Rot90 case FlipH => Rot270 case Diag => Rot180 case AntiDiag => Id)
  }

  /** The inverse symmetry: quarter turns undo each other, the rest are their own inverse. */
  function Inverse(s: Sym): Sym {
    match s
    case Rot90 => Rot270
    case Rot270 => Rot90
    case _ => s
  }

  /** Applying t and then s is applying their composition. */
  lemma ComposeApply(s: Sym, t: Sym, g: Grid)
    ensures Apply(s, Apply(t, g)) == Apply(Compose(s, t), g)
  {
  }

  /** Inverse undoes a symmetry, on either side. */
  lemma InverseApply(s: Sym, g: Grid)
    ensures Apply(Inverse(s), Apply(s, g)) == g
    ensures Apply(s, Apply(Inverse(s), g)) == g
  {
  }

  /** The mirrors used by the game state (reflejaIzq, reflejaArriba, traspuesta as intended) are involutions. */
  lemma ReflectionsAreInvolutions(g: Grid)
    ensures Apply(FlipV, Apply(FlipV, g)) == g
    ensures Apply(FlipH, Apply(FlipH, g)) == g
    ensures Apply(Diag, Apply(Diag, g)) == g
  {
  }

  /** The hash kernel is itself symmetric, so every symmetry preserves the hash. */
  lemma HashInvariant(s: Sym, g: Grid)
    ensures Hash(Apply(s, g)) == Hash(g)
  {
  }

  /** A symmetry only moves cells, so it keeps a board marked. */
  lemma MarkedInvariant(s: Sym, g: Grid)
    requires Marked(g)
    ensures Marked(Apply(s, g))
  {
    ApplyAt(s, g);
  }

  // ------------------------------------------------------------------
  // The equivalence the symmetry tests were meant to decide.
  // ------------------------------------------------------------------

  /** a is b seen through some symmetry of the square. */
  predicate Equivalent(a: Grid, b: Grid) {
    exists s: Sym :: a == Apply(s, b)
  }

  lemma {:induction false} EquivalentReflexive(a: Grid)
    ensures Equivalent(a, a)
  {
    assert a == Apply(Id, a);
  }

  lemma {:induction false} EquivalentSymmetric(a: Grid, b: Grid)
    requires Equivalent(a, b)
    ensures Equivalent(b, a)
  {
    var s: Sym :| a == Apply(s, b);
    InverseApply(s, b);
    assert b == Apply(Inverse(s), a);
  }

  lemma {:induction false} EquivalentTransitive(a: Grid, b: Grid, c: Grid)
    requires Equivalent(a, b) && Equivalent(b, c)
    ensures Equivalent(a, c)
  {
    var s: Sym :| a == Apply(s, b);
    var t: Sym :| b == Apply(t, c);
    ComposeApply(s, t, c);
    assert a == Apply(Compose(s, t), c);
  }

  // ------------------------------------------------------------------
  // `equals` of the game state, as written, with its helpers as written.
  // ------------------------------------------------------------------

  /**
   * equals(this = a, otro = b) as written. Each disjunct is one helper, in the order
   * they are tried: esIgual; esSimetricoDiagonalInvertida and esSimetricoDiagonal,
   * which compare otro with the result of traspuesta, always the empty board;
   * esSimetricoVerticalmente; esSimetricoHorizontalmente, which repeats the vertical
   * test; esSimetrico90; esSimetrico180, whose test is a top-bottom flip; and
   * esSimetrico270, whose test is the reflection over the / diagonal.
   */
  predicate EqualsAsWritten(a: Grid, b: Grid) {
    a == b
    || b == Empty
    || b == Empty
    || a == Apply(FlipV, b)
    || a == Apply(FlipV, b)
    || a == Apply(Rot90, b)
    || a == Apply(FlipH, b)
    || a == Apply(AntiDiag, b)
  }

  /** equals as written is reflexive. */
  lemma EqualsAsWrittenReflexive(a: Grid)
    ensures EqualsAsWritten(a, a)
  {
  }

  /**
   * Apart from the empty-board case, equals as written accepts only true symmetries
   * (it under-approximates Equivalent).
   */
  lemma {:induction false} EqualsAsWrittenSound(a: Grid, b: Grid)
    requires EqualsAsWritten(a, b) && b != Empty
    ensures Equivalent(a, b)
  {
    if a == b {
      EquivalentReflexive(a);
    } else if a == Apply(FlipV, b) {
      assert a == Apply(FlipV, b);
    } else if a == Apply(Rot90, b) {
      assert a == Apply(Rot90, b);
    } else if a == Apply(FlipH, b) {
      assert a == Apply(FlipH, b);
    } else {
      assert a == Apply(AntiDiag, b);
    }
  }

  /** Against the empty board, equals as written accepts every board. */
  lemma EqualsAsWrittenAcceptsEmpty(a: Grid)
    ensures EqualsAsWritten(a, Empty)
  {
  }

  /**
   * Hence equals as written is not symmetric: one MARCA2 in a corner "equals" the empty
   * board, but not the other way round, and the two are not equivalent.
   */
  lemma EqualsAsWrittenNotSymmetric()
    ensures var a := Grid(MARCA2, 0, 0, 0, 0, 0, 0, 0, 0);
      EqualsAsWritten(a, Empty) && !EqualsAsWritten(Empty, a) && !Equivalent(a, Empty)
  {
    var a := Grid(MARCA2, 0, 0, 0, 0, 0, 0, 0, 0);
    if Equivalent(a, Empty) {
      assert false;
    }
  }

  /** And it misses true symmetries: a board and its half turn are not recognised as equal. */
  lemma EqualsAsWrittenMissesHalfTurn()
    ensures var b := Grid(MARCA1, MARCA2, 0, 0, 0, 0, 0, 0, 0);
      Equivalent(Apply(Rot180, b), b) && !EqualsAsWritten(Apply(Rot180, b), b)
  {
  }

  /** The tests as written confuse FlipV with FlipH, FlipH with Rot180 and AntiDiag with Rot270. */
  lemma WrittenTestsDiffer()
    ensures var b := Grid(MARCA1, MARCA2, 0, 0, 0, 0, 0, 0, 0);
      Apply(FlipV, b) != Apply(FlipH, b) && Apply(FlipH, b) != Apply(Rot180, b) &&
      Apply(AntiDiag, b) != Apply(Rot270, b)
  {
  }

  /**
   * The diagonal tests with the transpose repaired still miss their comments: a left-right
   * mirror followed by the transpose is the 270-degree turn, which differs from the
   * reflection over \, and the transpose alone is the reflection over \, which differs
   * from the reflection over /.
   */
  lemma DiagonalTestsDiffer(g: Grid)
    ensures Apply(Diag, Apply(FlipV, g)) == Apply(Rot270, g)
    ensures var b := Grid(MARCA1, MARCA2, 0, 0, 0, 0, 0, 0, 0);
      Apply(Rot270, b) != Apply(Diag, b) && Apply(Diag, b) != Apply(AntiDiag, b)
  {
  }

  // ------------------------------------------------------------------
  // Canonical form: the lexicographically least of the eight images.
  // ------------------------------------------------------------------

  /** Strict lexicographic order on the nine cells in row-major order. */
  predicate LexLess(a: Grid, b: Grid) {
    a.c00 < b.c00 || (a.c00 == b.c00 &&
    (a.c01 < b.c01 || (a.c01 == b.c01 &&
    (a.c02 < b.c02 || (a.c02 == b.c02 &&
    (a.c10 < b.c10 || (a.c10 == b.c10 &&
    (a.c11 < b.c11 || (a.c11 == b.c11 &&
    (a.c12 < b.c12 || (a.c12 == b.c12 &&
    (a.c20 < b.c20 || (a.c20 == b.c20 &&
    (a.c21 < b.c21 || (a.c21 == b.c21 &&
    a.c22 < b.c22)))))))))))))))
  }

  predicate LexLe(a: Grid, b: Grid) {
    a == b || LexLess(a, b)
  }

  /** LexLe is a total order. */
  lemma LexTotalOrder(a: Grid, b: Grid, c: Grid)
    ensures LexLe(a, b) || LexLe(b, a)
    ensures LexLe(a, b) && LexLe(b, a) ==> a == b
    ensures LexLe(a, b) && LexLe(b, c) ==> LexLe(a, c)
  {
  }

  /** The least element of a non-empty sequence of boards. */
  function MinOf(xs: seq<Grid>): (m: Grid)
    requires |xs| > 0
    ensures m in xs
    ensures forall x :: x in xs ==> LexLe(m, x)
  {
    if |xs| == 1 then xs[0]
    else
      var rest := MinOf(xs[1..]);
      LexTotalOrder(xs[0], rest, xs[0]);
      forall x | x in xs[1..] ensures LexLe(xs[0], rest) ==> LexLe(xs[0], x) {
        LexTotalOrder(xs[0], rest, x);
      }
      assert forall x :: x in xs ==> x == xs[0] || x in xs[1..];
      if LexLe(xs[0], rest) then xs[0] else rest
  }

  /** The eight images of a board. */
  function Images(g: Grid): seq<Grid> {
    [Apply(Id, g), Apply(Rot90, g), Apply(Rot180, g), Apply(Rot270, g),
     Apply(FlipV, g), Apply(FlipH, g), Apply(Diag, g), Apply(AntiDiag, g)]
  }

  lemma ImagesAreImages(g: Grid, x: Grid)
    ensures x in Images(g) <==> exists s: Sym :: x == Apply(s, g)
  {
    if x in Images(g) {
      var k :| 0 <= k < 8 && Images(g)[k] == x;
      var s := [Id, Rot90, Rot180, Rot270, FlipV, FlipH, Diag, AntiDiag][k];
      assert x == Apply(s, g);
    }
  }

  /** The canonical form: the least image of g. */
  function Canon(g: Grid): Grid {
    MinOf(Images(g))
  }

  /** The canonical form is equivalent to the board. */
  lemma {:induction false} CanonEquivalent(g: Grid)
    ensures Equivalent(Canon(g), g)
  {
    ImagesAreImages(g, Canon(g));
  }

  /** Canon(a) is no greater than any image of a board equivalent to a. */
  lemma {:induction false} CanonBelowImages(a: Grid, b: Grid, t: Sym)
    requires Equivalent(a, b)
    ensures LexLe(Canon(a), Apply(t, b))
  {
    var u: Sym :| a == Apply(u, b);
    InverseApply(u, b);
    ComposeApply(t, Inverse(u), a);
    assert Apply(t, b) == Apply(Compose(t, Inverse(u)), a);
    ImagesAreImages(a, Apply(t, b));
  }

  /** Two boards have the same canonical form exactly when they are equivalent. */
  lemma {:induction false} CanonExact(a: Grid, b: Grid)
    ensures Canon(a) == Canon(b) <==> Equivalent(a, b)
  {
    CanonEquivalent(a);
    CanonEquivalent(b);
    if Canon(a) == Canon(b) {
      EquivalentSymmetric(Canon(a), a);
      EquivalentTransitive(a, Canon(b), b);
    }
    if Equivalent(a, b) {
      EquivalentSymmetric(a, b);
      var s: Sym :| Canon(b) == Apply(s, b);
      var t: Sym :| Canon(a) == Apply(t, a);
      CanonBelowImages(a, b, s);
      CanonBelowImages(b, a, t);
      LexTotalOrder(Canon(a), Canon(b), Canon(a));
    }
  }
}
