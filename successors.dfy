/**
 * Successor generation as a function of the parent's value: the 3x3 scan of
 * generaSucesores filling a table keyed by hash, as written, and a corrected scan that
 * plays the cell it tests and keys the table by the canonical form.
 */
module Successors {
  import opened Options
  import opened Grids
  import opened Win
  import opened Symmetry

  /** The value part of a game state: board, move count, who moved last, win flag. */
  datatype State = State(board: Grid, tiradas: int, jugador1: bool, hayGanador: bool)

  /**
   * tiraEn(x, y): one more move, the mark of `jugador1` in row y, column x, and the win
   * flag raised when the move completes a line.
   */
  function Play(s: State, x: Idx, y: Idx): (r: State)
    ensures r.tiradas == s.tiradas + 1 && r.jugador1 == s.jugador1
    ensures r.board == With(s.board, y, x, Marca(s.jugador1))
    ensures r.hayGanador <==> s.hayGanador || CompletesLine(r.board, x, y, Marca(s.jugador1))
  {
    var m := Marca(s.jugador1);
    var b := With(s.board, y, x, m);
    WinDetection(b, x, y, m);
    State(b, s.tiradas + 1, s.jugador1, s.hayGanador || WinAsWritten(b, x, y, m))
  }

  /** A state with a winner or a full count is a leaf: generaSucesores returns null for it. */
  predicate GameOver(p: State) {
    p.hayGanador || p.tiradas == 9
  }

  /**
   * The state made by the copy constructor and the two assignments of generaSucesores:
   * the parent's board and count, the other player, and the win flag of a new object.
   */
  function Child(p: State): State {
    State(p.board, p.tiradas, !p.jugador1, false)
  }

  /** The k-th pass of the scan tests the cell in row Row(k), column Col(k). */
  predicate Free(p: State, k: nat)
    requires k < 9
  {
    At(p.board, Row(k), Col(k)) == 0
  }

  // ------------------------------------------------------------------
  // As written.
  // ------------------------------------------------------------------

  /**
   * The candidate of pass k as written: the test reads `tablero[i][j]` but the call
   * `tiraEn(i, j)` writes `tablero[j][i]`.
   */
  function Candidate(p: State, k: nat): (c: State)
    requires k < 9
    ensures Free(p, k) ==>
      c.tiradas == p.tiradas + 1 && c.jugador1 == !p.jugador1 &&
      c.board == With(p.board, Col(k), Row(k), Marca(!p.jugador1)) &&
      (c.hayGanador <==> CompletesLine(c.board, Row(k), Col(k), Marca(!p.jugador1)))
    ensures !Free(p, k) ==> c.tiradas == p.tiradas && c.board == p.board
  {
    var g := Child(p);
    if At(g.board, Row(k), Col(k)) == 0 then Play(g, Row(k), Col(k)) else g
  }

  /** The table after the first n passes of the nested loop. */
  function Scan(p: State, n: nat): map<int, State>
    requires n <= 9
  {
    if n == 0 then map[]
    else
      var m := Scan(p, n - 1);
      var c := Candidate(p, n - 1);
      var h := Hash(c.board);
      if h !in m && c.tiradas > p.tiradas then m[h := c] else m
  }

  /** One pass of the scan: the table grows by the candidate exactly when Scan does. */
  lemma ScanStep(p: State, n: nat, vals: map<int, State>, c: State, h: int)
    requires n < 9 && vals == Scan(p, n) && c == Candidate(p, n) && h == Hash(c.board)
    ensures Scan(p, n + 1) == if h !in vals && c.tiradas > p.tiradas then vals[h := c] else vals
  {
  }

  /** generaSucesores as written: None (null) for a leaf, else the filled table. */
  function Expand(p: State): Option<map<int, State>> {
    if GameOver(p) then None else Some(Scan(p, 9))
  }

  /** Pass k is the first pass that plays a candidate with hash h. */
  predicate FirstWithHash(p: State, k: nat, h: int)
    requires k < 9
  {
    Free(p, k) && Hash(Candidate(p, k).board) == h &&
    forall k': nat :: k' < k && Free(p, k') ==> Hash(Candidate(p, k').board) != h
  }

  /**
   * The table after n passes: every key is the hash of its state, there are at most n
   * entries, and the hash of every played candidate is a key.
   */
  lemma {:induction false} ScanKeys(p: State, n: nat)
    requires n <= 9
    ensures forall h :: h in Scan(p, n) ==> Hash(Scan(p, n)[h].board) == h
    ensures |Scan(p, n)| <= n
    ensures forall k: nat :: k < n && Free(p, k) ==> Hash(Candidate(p, k).board) in Scan(p, n)
  {
    if n > 0 {
      ScanKeys(p, n - 1);
      assert Candidate(p, n - 1).tiradas > p.tiradas <==> Free(p, n - 1);
    }
  }

  /** Each key of the table holds the first candidate, in row-major order, with that hash. */
  lemma {:induction false} ScanKeepsFirst(p: State, n: nat)
    requires n <= 9
    ensures forall h :: h in Scan(p, n) ==>
      exists k: nat :: k < n && FirstWithHash(p, k, h) && Scan(p, n)[h] == Candidate(p, k)
  {
    if n > 0 {
      ScanKeepsFirst(p, n - 1);
      ScanKeys(p, n - 1);
      var m := Scan(p, n - 1);
      var c := Candidate(p, n - 1);
      var h := Hash(c.board);
      assert c.tiradas > p.tiradas <==> Free(p, n - 1);
      forall h' | h' in Scan(p, n)
        ensures exists k: nat :: k < n && FirstWithHash(p, k, h') && Scan(p, n)[h'] == Candidate(p, k)
      {
        if h' in m && Scan(p, n)[h'] == m[h'] {
          var k: nat :| k < n - 1 && FirstWithHash(p, k, h') && m[h'] == Candidate(p, k);
          assert k < n && FirstWithHash(p, k, h');
        } else {
          assert h' == h && h !in m && Free(p, n - 1);
          assert FirstWithHash(p, n - 1, h);
        }
      }
    }
  }

  /**
   * The successors of a live state as written: no two share a hash, there are at most
   * nine, each has one more move and the other player, and each is the parent's board
   * with the new mark in row Col(k), column Row(k) for a pass k whose cell in row Row(k),
   * column Col(k) was free.
   */
  lemma ExpandAsWritten(p: State)
    requires !GameOver(p)
    ensures Expand(p).Some?
    ensures forall h1, h2 :: h1 in Expand(p).value && h2 in Expand(p).value && h1 != h2 ==>
      Hash(Expand(p).value[h1].board) != Hash(Expand(p).value[h2].board)
    ensures |Expand(p).value| <= 9
    ensures forall h :: h in Expand(p).value ==>
      var c := Expand(p).value[h];
      c.tiradas == p.tiradas + 1 && c.jugador1 == !p.jugador1 &&
      exists k: nat :: k < 9 && Free(p, k) &&
        c.board == With(p.board, Col(k), Row(k), Marca(!p.jugador1))
  {
    ScanKeys(p, 9);
    ScanKeepsFirst(p, 9);
    forall h | h in Expand(p).value
      ensures var c := Expand(p).value[h];
        c.tiradas == p.tiradas + 1 && c.jugador1 == !p.jugador1 &&
        exists k: nat :: k < 9 && Free(p, k) &&
          c.board == With(p.board, Col(k), Row(k), Marca(!p.jugador1))
    {
      var k: nat :| k < 9 && FirstWithHash(p, k, h) && Scan(p, 9)[h] == Candidate(p, k);
      assert Free(p, k);
    }
  }

  /** A move writes a mark, so it keeps a board of empty cells and marks. */
  lemma PlayKeepsMarked(s: State, x: Idx, y: Idx)
    requires Marked(s.board)
    ensures Marked(Play(s, x, y).board)
  {
    WithMarked(s.board, y, x, Marca(s.jugador1));
  }

  /**
   * From a board of empty cells and marks every successor's board is again one, so every
   * key of the table, and the hash of every state reached from the empty board, lies in 0..64.
   */
  lemma ExpandKeepsMarked(p: State)
    requires Marked(p.board) && !GameOver(p)
    ensures Expand(p).Some?
    ensures forall h :: h in Expand(p).value ==> Marked(Expand(p).value[h].board) && 0 <= h <= 16 * MARCA2
  {
    ScanKeys(p, 9);
    forall h | h in Expand(p).value ensures Marked(Expand(p).value[h].board) && 0 <= h <= 16 * MARCA2 {
      ExpandKeepsFirst(p, h);
      var k: nat :| k < 9 && FirstWithHash(p, k, h) && Expand(p).value[h] == Candidate(p, k);
      PlayKeepsMarked(Child(p), Row(k), Col(k));
      HashBound(Expand(p).value[h].board);
    }
  }

  /** A leaf yields nothing. */
  lemma ExpandLeaf(p: State)
    requires GameOver(p)
    ensures Expand(p) == None
  {
  }

  /** A live state's table keeps exactly the first candidate of each hash value. */
  lemma {:induction false} ExpandKeepsFirst(p: State, h: int)
    requires !GameOver(p)
    ensures h in Expand(p).value <==> exists k: nat :: k < 9 && Free(p, k) && Hash(Candidate(p, k).board) == h
    ensures h in Expand(p).value ==>
      exists k: nat :: k < 9 && FirstWithHash(p, k, h) && Expand(p).value[h] == Candidate(p, k)
  {
    ScanKeys(p, 9);
    ScanKeepsFirst(p, 9);
  }

  /** A played candidate adds the weight of the written cell times the new mark to the parent's hash. */
  lemma CandidateHash(p: State, k: nat)
    requires k < 9 && Free(p, k)
    ensures Hash(Candidate(p, k).board) ==
      Hash(p.board) + Weight(Col(k), Row(k)) * (Marca(!p.jugador1) - At(p.board, Col(k), Row(k)))
  {
    HashWith(p.board, Col(k), Row(k), Marca(!p.jugador1));
  }

  /** From an empty board with the first player to move, every pass plays a mark worth its cell's weight. */
  lemma EmptyBoardCandidate(p: State, k: nat)
    requires p.board == Empty && !p.jugador1 && k < 9
    ensures Free(p, k) && Hash(Candidate(p, k).board) == Weight(Col(k), Row(k))
  {
    CandidateHash(p, k);
  }

  /** From the empty board the hash of the mark played at pass k is kept. */
  lemma EmptyBoardKeyOf(p: State, k: nat, h: int)
    requires p.board == Empty && !p.jugador1 && !GameOver(p) && k < 9 && h == Weight(Col(k), Row(k))
    ensures h in Expand(p).value
  {
    EmptyBoardCandidate(p, k);
    ExpandKeepsFirst(p, h);
  }

  /** From the empty board every kept hash is 1, 2 or 4. */
  lemma EmptyBoardKeysWithin(p: State)
    requires p.board == Empty && !p.jugador1 && !GameOver(p)
    ensures Expand(p).Some? && Expand(p).value.Keys <= {1, 2, 4}
  {
    forall h | h in Expand(p).value ensures h in {1, 2, 4} {
      ExpandKeepsFirst(p, h);
      var k: nat :| k < 9 && Free(p, k) && Hash(Candidate(p, k).board) == h;
      EmptyBoardCandidate(p, k);
    }
  }

  /**
   * From the empty board exactly three successors are kept, one per hash value: a corner,
   * an edge and the centre.
   */
  lemma EmptyBoardThreeMoves(p: State)
    requires p.board == Empty && !p.jugador1 && !GameOver(p)
    ensures Expand(p).Some? && Expand(p).value.Keys == {1, 2, 4}
  {
    EmptyBoardKeysWithin(p);
    EmptyBoardKeyOf(p, 0, 1);
    EmptyBoardKeyOf(p, 1, 2);
    EmptyBoardKeyOf(p, 4, 4);
    var e := Expand(p).value.Keys;
    assert e <= {1, 2, 4} && 1 in e && 2 in e && 4 in e;
  }

  /**
   * The crossed indices overwrite marks: with MARCA2 in row 0, column 1, pass 3 tests the
   * free cell in row 1, column 0, then writes MARCA1 over the MARCA2, and that child is kept.
   */
  lemma OverwriteExample()
    ensures var p := State(Grid(0, MARCA2, 0, 0, 0, 0, 0, 0, 0), 1, false, false);
      var e := Expand(p);
      e.Some? && 2 in e.value &&
      e.value[2] == State(Grid(0, MARCA1, 0, 0, 0, 0, 0, 0, 0), 2, true, false)
  {
    var p := State(Grid(0, MARCA2, 0, 0, 0, 0, 0, 0, 0), 1, false, false);
    assert Candidate(p, 3) == State(Grid(0, MARCA1, 0, 0, 0, 0, 0, 0, 0), 2, true, false);
    ExpandKeepsFirst(p, 2);
    var k: nat :| k < 9 && FirstWithHash(p, k, 2) && Expand(p).value[2] == Candidate(p, k);
    CandidateHash(p, k);
    if k < 3 {
      assert false;
    }
  }

  /** Equivalent boards have the same hash. */
  lemma {:induction false} EquivalentSameHash(a: Grid, b: Grid)
    requires Equivalent(a, b)
    ensures Hash(a) == Hash(b)
  {
    var s: Sym :| a == Apply(s, b);
    HashInvariant(s, b);
  }

  /** After MARCA2 in the top-left corner every other cell is free and a reply adds its weight to 4. */
  lemma CornerReplyHash(p: State, k: nat)
    requires p.board == Grid(MARCA2, 0, 0, 0, 0, 0, 0, 0, 0) && !p.jugador1 && k < 9
    ensures Free(p, k) <==> k != 0
    ensures Free(p, k) ==> Hash(Candidate(p, k).board) == MARCA2 + Weight(Col(k), Row(k))
  {
    if Free(p, k) {
      CandidateHash(p, k);
    }
  }

  /**
   * Keying by hash merges moves that are not symmetric: after MARCA2 in the top-left corner,
   * the reply in the opposite corner (pass 8) has the same hash as the reply in the
   * bottom-left corner kept at pass 2, so no kept successor is equivalent to it.
   */
  lemma {:induction false} HashMergesInequivalent(p: State)
    requires p.board == Grid(MARCA2, 0, 0, 0, 0, 0, 0, 0, 0) && !p.jugador1 && !GameOver(p)
    ensures Expand(p).Some? && Free(p, 8)
    ensures forall h :: h in Expand(p).value ==> !Equivalent(Candidate(p, 8).board, Expand(p).value[h].board)
  {
    var e := Expand(p);
    CornerReplyHash(p, 8);
    CornerReplyHash(p, 2);
    var lost := Candidate(p, 8).board;
    assert lost == Grid(MARCA2, 0, 0, 0, 0, 0, 0, 0, MARCA1);
    var kept := Candidate(p, 2).board;
    assert kept == Grid(MARCA2, 0, 0, 0, 0, 0, MARCA1, 0, 0);
    assert !Equivalent(lost, kept);
    forall h | h in e.value ensures !Equivalent(lost, e.value[h].board) {
      ExpandKeepsFirst(p, h);
      var k: nat :| k < 9 && FirstWithHash(p, k, h) && e.value[h] == Candidate(p, k);
      CornerReplyHash(p, k);
      if Equivalent(lost, e.value[h].board) {
        EquivalentSameHash(lost, e.value[h].board);
        assert false;
      }
    }
  }

  // ------------------------------------------------------------------
  // Corrected: play the cell that was tested, key by the canonical form.
  // ------------------------------------------------------------------

  /** The candidate of pass k with the test and the move on the same cell. */
  function CandidateFixed(p: State, k: nat): (c: State)
    requires k < 9
    ensures Free(p, k) ==>
      c.tiradas == p.tiradas + 1 && c.jugador1 == !p.jugador1 &&
      c.board == With(p.board, Row(k), Col(k), Marca(!p.jugador1)) &&
      (c.hayGanador <==> CompletesLine(c.board, Col(k), Row(k), Marca(!p.jugador1)))
    ensures !Free(p, k) ==> c.tiradas == p.tiradas && c.board == p.board
  {
    var g := Child(p);
    if At(g.board, Row(k), Col(k)) == 0 then Play(g, Col(k), Row(k)) else g
  }

  /** The table after n passes, keyed by the canonical form of the board. */
  function ScanFixed(p: State, n: nat): map<Grid, State>
    requires n <= 9
  {
    if n == 0 then map[]
    else
      var m := ScanFixed(p, n - 1);
      var c := CandidateFixed(p, n - 1);
      var key := Canon(c.board);
      if key !in m && c.tiradas > p.tiradas then m[key := c] else m
  }

  /** The corrected generator. */
  function ExpandFixed(p: State): Option<map<Grid, State>> {
    if GameOver(p) then None else Some(ScanFixed(p, 9))
  }

  /** After n corrected passes every key is the canonical form of its state. */
  lemma {:induction false} ScanFixedKeys(p: State, n: nat)
    requires n <= 9
    ensures forall key :: key in ScanFixed(p, n) ==> Canon(ScanFixed(p, n)[key].board) == key
  {
    if n > 0 {
      ScanFixedKeys(p, n - 1);
    }
  }

  /** After n corrected passes there are at most n entries. */
  lemma {:induction false} ScanFixedSize(p: State, n: nat)
    requires n <= 9
    ensures |ScanFixed(p, n)| <= n
  {
    if n > 0 {
      ScanFixedSize(p, n - 1);
    }
  }

  /** After n corrected passes the canonical form of every played candidate is a key. */
  lemma {:induction false} ScanFixedComplete(p: State, n: nat)
    requires n <= 9
    ensures forall k: nat :: k < n && Free(p, k) ==> Canon(CandidateFixed(p, k).board) in ScanFixed(p, n)
  {
    if n > 0 {
      ScanFixedComplete(p, n - 1);
      assert CandidateFixed(p, n - 1).tiradas > p.tiradas <==> Free(p, n - 1);
    }
  }

  /** Every entry of the corrected table is a candidate whose cell was free. */
  lemma {:induction false} ScanFixedEntries(p: State, n: nat)
    requires n <= 9
    ensures forall key :: key in ScanFixed(p, n) ==>
      exists k: nat :: k < n && Free(p, k) && ScanFixed(p, n)[key] == CandidateFixed(p, k)
  {
    if n > 0 {
      ScanFixedEntries(p, n - 1);
      var m := ScanFixed(p, n - 1);
      var c := CandidateFixed(p, n - 1);
      assert c.tiradas > p.tiradas <==> Free(p, n - 1);
      forall key | key in ScanFixed(p, n)
        ensures exists k: nat :: k < n && Free(p, k) && ScanFixed(p, n)[key] == CandidateFixed(p, k)
      {
        if key in m && ScanFixed(p, n)[key] == m[key] {
          var k: nat :| k < n - 1 && Free(p, k) && m[key] == CandidateFixed(p, k);
          assert k < n;
        } else {
          assert Free(p, n - 1) && ScanFixed(p, n)[key] == CandidateFixed(p, n - 1);
        }
      }
    }
  }

  /**
   * The corrected successors of a live state: each has one more move and the other
   * player, and is the parent's board with that player's mark in one cell that was free;
   * its win flag says whether that mark completes a line.
   */
  lemma ExpandFixedShape(p: State)
    requires !GameOver(p)
    ensures ExpandFixed(p).Some? && |ExpandFixed(p).value| <= 9
    ensures forall key :: key in ExpandFixed(p).value ==>
      var c := ExpandFixed(p).value[key];
      c.tiradas == p.tiradas + 1 && c.jugador1 == !p.jugador1 &&
      exists k: nat :: k < 9 && Free(p, k) &&
        c.board == With(p.board, Row(k), Col(k), Marca(!p.jugador1)) &&
        (c.hayGanador <==> CompletesLine(c.board, Col(k), Row(k), Marca(!p.jugador1)))
  {
    ScanFixedSize(p, 9);
    ScanFixedEntries(p, 9);
    forall key | key in ExpandFixed(p).value
      ensures var c := ExpandFixed(p).value[key];
        c.tiradas == p.tiradas + 1 && c.jugador1 == !p.jugador1 &&
        exists k: nat :: k < 9 && Free(p, k) &&
          c.board == With(p.board, Row(k), Col(k), Marca(!p.jugador1)) &&
          (c.hayGanador <==> CompletesLine(c.board, Col(k), Row(k), Marca(!p.jugador1)))
    {
      var c := ExpandFixed(p).value[key];
      var k: nat :| k < 9 && Free(p, k) && c == CandidateFixed(p, k);
    }
  }

  /**
   * The corrected dedup is exact: no two kept successors are equivalent, and every legal
   * move leads to a board equivalent to a kept successor.
   */
  lemma ExpandFixedExact(p: State)
    requires !GameOver(p)
    ensures ExpandFixed(p).Some?
    ensures forall a, b :: a in ExpandFixed(p).value && b in ExpandFixed(p).value && a != b ==>
      !Equivalent(ExpandFixed(p).value[a].board, ExpandFixed(p).value[b].board)
    ensures forall k: nat :: k < 9 && Free(p, k) ==>
      exists key :: key in ExpandFixed(p).value &&
        Equivalent(CandidateFixed(p, k).board, ExpandFixed(p).value[key].board)
  {
    var m := ScanFixed(p, 9);
    ScanFixedKeys(p, 9);
    ScanFixedComplete(p, 9);
    forall a, b | a in m && b in m && a != b ensures !Equivalent(m[a].board, m[b].board) {
      CanonExact(m[a].board, m[b].board);
    }
    forall k: nat | k < 9 && Free(p, k)
      ensures exists key :: key in m && Equivalent(CandidateFixed(p, k).board, m[key].board)
    {
      var key := Canon(CandidateFixed(p, k).board);
      CanonExact(CandidateFixed(p, k).board, m[key].board);
    }
  }

  /** On the example where hashing loses a move, the corrected generator keeps an equivalent of it. */
  lemma FixedKeepsOppositeCorner(p: State)
    requires p.board == Grid(MARCA2, 0, 0, 0, 0, 0, 0, 0, 0) && !p.jugador1 && !GameOver(p)
    ensures Free(p, 8)
    ensures exists key :: key in ExpandFixed(p).value &&
                          Equivalent(CandidateFixed(p, 8).board, ExpandFixed(p).value[key].board)
  {
    ExpandFixedExact(p);
    assert Free(p, 8);
  }
}
