/** When the game is over, on the cells of a board in absolute coordinates
    (the engine only asks once the perspective is North again). The scan for
    a possible move is stated exactly as the engine performs it, including
    its hard-coded bound 4, and what that scan does and does not detect is
    proved here. */
module Rules {
  import opened Perspective

  /** The value of the winning tile. */
  const MaxPiece := 2048

  /** What an operation leaves: its result, or the out-of-range board read
      that stopped it. */
  datatype Outcome<T> = Done(value: T) | IndexFault

  ghost predicate HasEmptyCell(g: Grid, n: nat)
    requires IsGrid(g, n)
  {
    exists x, y :: 0 <= x < n && 0 <= y < n && g[x][y] == 0
  }

  ghost predicate HasMaxTile(g: Grid, n: nat)
    requires IsGrid(g, n)
  {
    exists x, y :: 0 <= x < n && 0 <= y < n && g[x][y] == MaxPiece
  }

  /** Cell (x, y) and its neighbour to the right are equal tiles. */
  ghost predicate EqualRight(g: Grid, n: nat, x: int, y: int)
    requires IsGrid(g, n)
  {
    0 <= x && x + 1 < n && 0 <= y < n && g[x][y] != 0 && g[x][y] == g[x + 1][y]
  }

  /** Cell (x, y) and its neighbour above are equal tiles. */
  ghost predicate EqualUp(g: Grid, n: nat, x: int, y: int)
    requires IsGrid(g, n)
  {
    0 <= x < n && 0 <= y && y + 1 < n && g[x][y] != 0 && g[x][y] == g[x][y + 1]
  }

  /** Two orthogonally adjacent tiles have the same value. */
  ghost predicate HasEqualNeighbours(g: Grid, n: nat)
    requires IsGrid(g, n)
  {
    exists x, y :: EqualRight(g, n, x, y) || EqualUp(g, n, x, y)
  }

  /** The first guard of the scan: the right and upper neighbours are read. */
  predicate ReadsRightUp(c: int, r: int) {
    0 < c + 1 < 4 && 0 < r + 1 < 4
  }

  /** The second guard of the scan: the left and lower neighbours are read. */
  predicate ReadsLeftDown(c: int, r: int) {
    0 < c - 1 < 4 && 0 < r - 1 < 4
  }

  /** The scan, on a board without empty cells, from cell (c, r) on: columns
      in increasing order, rows in increasing order within a column. At each
      cell it compares with the right and upper neighbours when the first
      guard holds, reading both before comparing, and with the left and lower
      neighbours when the second guard holds. */
  ghost function MovesFrom(g: Grid, n: nat, c: nat, r: nat): Outcome<bool>
    requires IsGrid(g, n) && c <= n && r <= n
    decreases n - c, n - r
  {
    if c == n then Done(false)
    else if r == n then MovesFrom(g, n, c + 1, 0)
    else if ReadsRightUp(c, r) && (c + 1 >= n || r + 1 >= n) then IndexFault
    else if ReadsRightUp(c, r) &&
            ((g[c + 1][r] != 0 && g[c + 1][r] == g[c][r]) ||
             (g[c][r + 1] != 0 && g[c][r + 1] == g[c][r])) then Done(true)
    else if ReadsLeftDown(c, r) &&
            ((g[c - 1][r] != 0 && g[c - 1][r] == g[c][r]) ||
             (g[c][r - 1] != 0 && g[c][r - 1] == g[c][r])) then Done(true)
    else MovesFrom(g, n, c, r + 1)
  }

  /** What the engine reports as "at least one move exists". */
  ghost function AtLeastOneMove(g: Grid, n: nat): Outcome<bool>
    requires IsGrid(g, n)
  {
    if HasEmptyCell(g, n) then Done(true) else MovesFrom(g, n, 0, 0)
  }

  /** What the engine reports as "the game is over". */
  ghost function Over(g: Grid, n: nat): Outcome<bool>
    requires IsGrid(g, n)
  {
    if HasMaxTile(g, n) then Done(true)
    else match AtLeastOneMove(g, n)
      case Done(m) => Done(!m)
      case IndexFault => IndexFault
  }

  // ---------------------------------------------------------------------
  // What the scan reports

  /** An empty cell always counts as a move. */
  lemma EmptyCellIsMove(g: Grid, n: nat)
    requires IsGrid(g, n) && HasEmptyCell(g, n)
    ensures AtLeastOneMove(g, n) == Done(true)
  {
  }

  lemma {:induction false} MovesFromSound(g: Grid, n: nat, c: nat, r: nat)
    requires IsGrid(g, n) && c <= n && r <= n
    requires MovesFrom(g, n, c, r) == Done(true)
    ensures HasEqualNeighbours(g, n)
    decreases n - c, n - r
  {
    if c == n {
    } else if r == n {
      MovesFromSound(g, n, c + 1, 0);
    } else if ReadsRightUp(c, r) && (c + 1 >= n || r + 1 >= n) {
    } else if ReadsRightUp(c, r) &&
              ((g[c + 1][r] != 0 && g[c + 1][r] == g[c][r]) ||
               (g[c][r + 1] != 0 && g[c][r + 1] == g[c][r])) {
      assert EqualRight(g, n, c, r) || EqualUp(g, n, c, r);
    } else if ReadsLeftDown(c, r) &&
              ((g[c - 1][r] != 0 && g[c - 1][r] == g[c][r]) ||
               (g[c][r - 1] != 0 && g[c][r - 1] == g[c][r])) {
      assert EqualRight(g, n, c - 1, r) || EqualUp(g, n, c, r - 1);
    } else {
      MovesFromSound(g, n, c, r + 1);
    }
  }

  /** A reported move is real: there is an empty cell or two adjacent equal
      tiles. */
  lemma MovesSound(g: Grid, n: nat)
    requires IsGrid(g, n)
    requires AtLeastOneMove(g, n) == Done(true)
    ensures HasEmptyCell(g, n) || HasEqualNeighbours(g, n)
  {
    if !HasEmptyCell(g, n) {
      MovesFromSound(g, n, 0, 0);
    }
  }

  /** Cell (c, r) makes the scan report a move. */
  ghost predicate Hit(g: Grid, n: nat, c: int, r: int)
    requires IsGrid(g, n) && 4 <= n
  {
    0 <= c < n && 0 <= r < n &&
    ((ReadsRightUp(c, r) && (g[c + 1][r] == g[c][r] || g[c][r + 1] == g[c][r])) ||
     (ReadsLeftDown(c, r) && (g[c - 1][r] == g[c][r] || g[c][r - 1] == g[c][r])))
  }

  /** On a full board of side at least 4 the scan never reads outside the
      board, and reports a move exactly when some cell not yet scanned is a
      hit. */
  lemma {:induction false} MovesFromFull(g: Grid, n: nat, c: nat, r: nat)
    requires IsGrid(g, n) && 4 <= n && c <= n && r <= n
    requires !HasEmptyCell(g, n)
    ensures MovesFrom(g, n, c, r) ==
      Done(exists c', r' :: ((c' == c && r <= r') || c < c') && Hit(g, n, c', r'))
    decreases n - c, n - r
  {
    if c == n {
    } else if r == n {
      MovesFromFull(g, n, c + 1, 0);
    } else {
      assert g[c][r] != 0;
      MovesFromFull(g, n, c, r + 1);
      if Hit(g, n, c, r) {
        assert ReadsRightUp(c, r) ==> g[c + 1][r] != 0 && g[c][r + 1] != 0;
        assert ReadsLeftDown(c, r) ==> g[c - 1][r] != 0 && g[c][r - 1] != 0;
      }
    }
  }

  /** From side 4 on the scan never faults. */
  lemma NoFaultFromFour(g: Grid, n: nat)
    requires IsGrid(g, n) && 4 <= n
    ensures AtLeastOneMove(g, n) != IndexFault
    ensures Over(g, n) != IndexFault
  {
    if !HasEmptyCell(g, n) {
      MovesFromFull(g, n, 0, 0);
    }
  }

  /** The tiles (x, y) and (x + 1, y), or (x, y) and (x, y + 1), are equal
      and the 4 by 4 scan compares them: every adjacent pair but (0,3)-(1,3)
      and (3,0)-(3,1). */
  ghost predicate ComparedEqualPair(g: Grid, x: int, y: int)
    requires IsGrid(g, 4)
  {
    (EqualRight(g, 4, x, y) && !(x == 0 && y == 3)) ||
    (EqualUp(g, 4, x, y) && !(x == 3 && y == 0))
  }

  /** On a full 4 by 4 board the engine finds a move exactly when two
      adjacent tiles other than (0,3)-(1,3) and (3,0)-(3,1) are equal. */
  lemma FullFourByFour(g: Grid)
    requires IsGrid(g, 4) && !HasEmptyCell(g, 4)
    ensures AtLeastOneMove(g, 4) == Done(exists x, y :: ComparedEqualPair(g, x, y))
  {
    MovesFromFull(g, 4, 0, 0);
    var hit := exists c', r' :: ((c' == 0 && 0 <= r') || 0 < c') && Hit(g, 4, c', r');
    if hit {
      var c', r' :| ((c' == 0 && 0 <= r') || 0 < c') && Hit(g, 4, c', r');
      assert g[c'][r'] != 0;
      if ReadsRightUp(c', r') && g[c' + 1][r'] == g[c'][r'] {
        assert ComparedEqualPair(g, c', r');
      } else if ReadsRightUp(c', r') && g[c'][r' + 1] == g[c'][r'] {
        assert ComparedEqualPair(g, c', r');
      } else if g[c' - 1][r'] == g[c'][r'] {
        assert ComparedEqualPair(g, c' - 1, r');
      } else {
        assert ComparedEqualPair(g, c', r' - 1);
      }
    }
    if exists x, y :: ComparedEqualPair(g, x, y) {
      var x, y :| ComparedEqualPair(g, x, y);
      if EqualRight(g, 4, x, y) && !(x == 0 && y == 3) {
        if y <= 2 {
          assert Hit(g, 4, x, y);
        } else {
          assert Hit(g, 4, x + 1, y);
        }
      } else {
        if x <= 2 {
          assert Hit(g, 4, x, y);
        } else {
          assert Hit(g, 4, x, y + 1);
        }
      }
    }
  }

  /** A full 4 by 4 board with no tile of the winning value whose only equal
      neighbours are (0,3) and (1,3). */
  function MissedRowBoard(): Grid {
    [[2, 4, 2, 8], [4, 2, 4, 8], [2, 4, 8, 2], [4, 8, 2, 4]]
  }

  /** A full 4 by 4 board with no tile of the winning value whose only equal
      neighbours are (3,0) and (3,1). */
  function MissedColumnBoard(): Grid {
    [[2, 4, 2, 4], [4, 2, 4, 2], [2, 8, 2, 4], [4, 4, 8, 2]]
  }

  /** The engine declares the game over on these boards although a tilt
      would still merge the two equal tiles. */
  lemma MissedPairs()
    ensures IsGrid(MissedRowBoard(), 4) && EqualRight(MissedRowBoard(), 4, 0, 3)
    ensures Over(MissedRowBoard(), 4) == Done(true)
    ensures IsGrid(MissedColumnBoard(), 4) && EqualUp(MissedColumnBoard(), 4, 3, 0)
    ensures Over(MissedColumnBoard(), 4) == Done(true)
  {
    var g, h := MissedRowBoard(), MissedColumnBoard();
    assert IsGrid(g, 4) && IsGrid(h, 4);
    assert !HasEmptyCell(g, 4) && !HasEmptyCell(h, 4);
    assert !HasMaxTile(g, 4) && !HasMaxTile(h, 4);
    FullFourByFour(g);
    FullFourByFour(h);
    assert !exists x, y :: ComparedEqualPair(g, x, y);
    assert !exists x, y :: ComparedEqualPair(h, x, y);
  }

  /** From side 4 on, a full board with no two equal neighbours and no
      winning tile is over. */
  lemma StuckIsOver(g: Grid, n: nat)
    requires IsGrid(g, n) && 4 <= n
    requires !HasEmptyCell(g, n) && !HasEqualNeighbours(g, n)
    ensures Over(g, n) == Done(true)
  {
    NoFaultFromFour(g, n);
    if AtLeastOneMove(g, n) == Done(true) {
      MovesSound(g, n);
    }
  }

  /** Below side 4 the scan of column 0 reaches row n-1, whose first guard
      reads the upper neighbour off the board, unless it finds an equal pair
      first. */
  lemma {:induction false} ColumnZeroFaults(g: Grid, n: nat, r: nat)
    requires IsGrid(g, n) && 1 <= n < 4 && r < n
    requires !HasEmptyCell(g, n) && !HasEqualNeighbours(g, n)
    ensures MovesFrom(g, n, 0, r) == IndexFault
    decreases n - r
  {
    if r + 1 < n {
      assert g[0][r] != 0;
      assert !EqualRight(g, n, 0, r) && !EqualUp(g, n, 0, r);
      ColumnZeroFaults(g, n, r + 1);
    }
  }

  /** Below side 4 (and above 0), a full board with no equal neighbours and
      no winning tile makes the game-over test read off the board, where
      from side 4 on it is over. */
  lemma FaultBelowFour(g: Grid, n: nat)
    requires IsGrid(g, n) && 1 <= n < 4
    requires !HasEmptyCell(g, n) && !HasEqualNeighbours(g, n) && !HasMaxTile(g, n)
    ensures AtLeastOneMove(g, n) == IndexFault
    ensures Over(g, n) == IndexFault
  {
    ColumnZeroFaults(g, n, 0);
  }

  /** One such board for each side 1, 2 and 3. */
  lemma FaultingBoards()
    ensures IsGrid([[2]], 1) && Over([[2]], 1) == IndexFault
    ensures IsGrid([[2, 4], [4, 2]], 2) && Over([[2, 4], [4, 2]], 2) == IndexFault
    ensures IsGrid([[2, 4, 2], [4, 2, 4], [2, 4, 2]], 3) && Over([[2, 4, 2], [4, 2, 4], [2, 4, 2]], 3) == IndexFault
  {
    var g1, g2, g3 := [[2]], [[2, 4], [4, 2]], [[2, 4, 2], [4, 2, 4], [2, 4, 2]];
    assert IsGrid(g1, 1) && IsGrid(g2, 2) && IsGrid(g3, 3);
    assert !HasEmptyCell(g1, 1) && !HasEqualNeighbours(g1, 1) && !HasMaxTile(g1, 1);
    assert !HasEmptyCell(g2, 2) && !HasEqualNeighbours(g2, 2) && !HasMaxTile(g2, 2);
    assert !HasEmptyCell(g3, 3) && !HasEqualNeighbours(g3, 3) && !HasMaxTile(g3, 3);
    FaultBelowFour(g1, 1);
    FaultBelowFour(g2, 2);
    FaultBelowFour(g3, 3);
  }

  /** The empty board of side 0 never faults: it is over. */
  lemma NoCellsIsOver()
    ensures Over([], 0) == Done(true)
  {
    assert !HasEmptyCell([], 0) && !HasMaxTile([], 0);
  }
}
