/** The state of a game of 2048: a square board of tiles held in a mutable
    array, the current score, the best score of finished games and the
    game-over flag. The board's cells are stored in absolute coordinates,
    board[x, y] for column x and row y with (0, 0) the lower-left corner;
    0 stands for an empty cell. */
module Game2048 {
  import opened Columns
  import opened Perspective
  import opened Boards
  import opened Rules

  /** The contents of a square array as a grid value. */
  ghost function Snapshot(b: array2<int>): (g: Grid)
    reads b
    requires b.Length0 == b.Length1
    ensures IsGrid(g, b.Length0)
    ensures forall x, y :: 0 <= x < b.Length0 && 0 <= y < b.Length0 ==> g[x][y] == b[x, y]
  {
    seq(b.Length0, x requires 0 <= x < b.Length0 reads b =>
      seq(b.Length1, y requires 0 <= y < b.Length1 reads b => b[x, y]))
  }

  /** The empty n by n grid. */
  function EmptyBoard(n: nat): (g: Grid)
    ensures IsGrid(g, n)
    ensures forall x, y :: 0 <= x < n && 0 <= y < n ==> g[x][y] == 0
  {
    seq(n, _ => Zeros(n))
  }

  /** A board on which the game is already over (it holds a 2048 tile) and
      a North tilt still earns 4, so a later `GameOver` raises the best
      score again. */
  lemma ScoresAfterOver()
    ensures var g := [[2048, 0, 0, 0], [0, 0, 0, 0], [0, 0, 0, 0], [0, 0, 2, 2]];
            IsGrid(g, 4) && Over(g, 4) == Done(true) && TiltGain(g, North, 4) == 4
  {
    var g := [[2048, 0, 0, 0], [0, 0, 0, 0], [0, 0, 0, 0], [0, 0, 2, 2]];
    assert IsGrid(g, 4) && g[0][0] == MaxPiece;
    var ls := Lanes(g, North, 4);
    Bijection(North, 4);
    GridExt(ls, [[0, 0, 0, 2048], [0, 0, 0, 0], [0, 0, 0, 0], [2, 2, 0, 0]], 4);
  }

  class Model {
    /** The number of squares on one side of the board. */
    const size: nat
    const board: array2<int>
    /** The side the board is currently viewed from. */
    var perspective: Side
    var score: int
    /** The best score so far; updated when a game is found to be over. */
    var maxScore: int
    var gameOver: bool

    ghost predicate Shaped() {
      board.Length0 == size && board.Length1 == size
    }

    /** Between operations the board is viewed from North. */
    ghost predicate Valid()
      reads this`perspective
    {
      Shaped() && perspective == North
    }

    /** The board in absolute coordinates. */
    ghost function Cells(): (g: Grid)
      reads board
      requires Shaped()
      ensures IsGrid(g, size)
    {
      Snapshot(board)
    }

    /** The board's lanes in the current perspective. */
    ghost function View(): (ls: Grid)
      reads this`perspective, board
      requires Shaped()
      ensures IsGrid(ls, size)
    {
      Lanes(Cells(), perspective, size)
    }

    /** The tile at logical column c, row r of the current perspective
        (0 for none); row size - 1 is the edge the board is tilted toward. */
    function Tile(c: int, r: int): (t: int)
      reads this`perspective, board
      requires Shaped() && 0 <= c < size && 0 <= r < size
      ensures t == View()[c][size - 1 - r]
    {
      board[Col(perspective, size, c, r), Row(perspective, size, c, r)]
    }

    constructor (n: nat)
      ensures Valid() && size == n && fresh(board)
      ensures Cells() == EmptyBoard(n)
      ensures score == 0 && maxScore == 0 && !gameOver
    {
      size := n;
      board := new int[n, n]((_, _) => 0);
      perspective := North;
      score, maxScore, gameOver := 0, 0, false;
      new;
      GridExt(Cells(), EmptyBoard(n), n);
    }

    function Size(): (n: nat)
      ensures n == size
    {
      size
    }

    function Score(): (s: int)
      reads this
      ensures s == score
    {
      score
    }

    function MaxScore(): (s: int)
      reads this
      ensures s == maxScore
    {
      maxScore
    }

    /** Moves the tile at logical (c, tr) to logical (c, r), within one
        logical column, which is every move `tilt` makes. Moving a tile onto
        its own cell does nothing; otherwise its old cell is emptied and the
        destination receives the tile, doubled if the destination was
        occupied. */
    method Move(c: int, r: int, tr: int)
      requires Shaped()
      requires 0 <= c < size && 0 <= r < size && 0 <= tr < size
      requires Tile(c, tr) != 0
      modifies board
      ensures var l := old(View())[c];
              var i, j := size - 1 - r, size - 1 - tr;
              View() == old(View())[c := if r == tr then l else l[j := 0][i := if l[i] == 0 then l[j] else 2 * l[j]]]
    {
      var side := perspective;
      var x, y := Col(side, size, c, r), Row(side, size, c, r);
      var sx, sy := Col(side, size, c, tr), Row(side, size, c, tr);
      if r == tr {
        return;
      }
      ghost var g0 := Cells();
      var v := board[sx, sy];
      var dest := board[x, y];
      var w := if dest == 0 then v else 2 * v;
      SetCell(sx, sy, 0);
      SetCell(x, y, w);
      assert View() == Lanes(Cells(), side, size);
      LanesMove(g0, side, size, c, r, tr);
    }

    /** Stores v in the absolute cell (x, y). */
    method SetCell(x: int, y: int, v: int)
      requires Shaped() && 0 <= x < size && 0 <= y < size
      modifies board
      ensures Cells() == old(Cells())[x := old(Cells())[x][y := v]]
    {
      ghost var g0 := Cells();
      board[x, y] := v;
      GridExt(Cells(), g0[x := g0[x][y := v]], size);
    }

    /** The compaction pass on logical column c: from the leading row down,
        every tile moves to the farthest empty cell ahead of it. */
    method CompactColumn(c: int, ghost l0: Lane) returns (moved: bool)
      requires Shaped() && 0 <= c < size && View()[c] == l0
      modifies board
      ensures View() == old(View())[c := Compact(l0)]
      ensures moved <==> Compact(l0) != l0
    {
      ghost var v0 := View();
      ghost var lane := l0;
      moved := false;
      var emptySpaces := 0;
      var r := size - 1;
      ghost var i: nat := 0;
      assert CompactLoop(l0, 0, l0, 0, false) by {
        CompactedStart(l0);
      }
      while r >= 0
        invariant -1 <= r < size && i == size - 1 - r
        invariant View() == v0[c := lane]
        invariant CompactLoop(l0, i, lane, emptySpaces, moved)
      {
        var shifted;
        emptySpaces, shifted, lane := CompactCell(c, r, emptySpaces, l0, i, lane, moved);
        moved := moved || shifted;
        r := r - 1;
        i := i + 1;
      }
      assert lane == Compact(l0) && (moved <==> Compact(l0) != l0) by {
        CompactedDone(l0, lane, emptySpaces, moved);
      }
    }

    /** One step of the compaction pass at logical (c, r), with emptySpaces
        empty cells passed so far: an empty cell is counted, and a tile with
        an empty cell ahead moves onto the first of them. */
    method CompactCell(c: int, r: int, emptySpaces: int, ghost l0: Lane, ghost i: nat, ghost lane: Lane, ghost moved: bool)
        returns (emptySpaces': int, shifted: bool, ghost lane': Lane)
      requires Shaped() && 0 <= c < size && 0 <= r < size && |l0| == size && i == size - 1 - r
      requires View()[c] == lane && CompactLoop(l0, i, lane, emptySpaces, moved)
      modifies board
      ensures View() == old(View())[c := lane']
      ensures CompactLoop(l0, i + 1, lane', emptySpaces', moved || shifted)
    {
      var curr := Tile(c, r);
      assert curr == l0[i];
      if curr == 0 {
        emptySpaces', shifted, lane' := emptySpaces + 1, false, lane;
        assert CompactLoop(l0, i + 1, lane', emptySpaces', moved || shifted) by {
          CompactSkip(l0, i, emptySpaces, moved);
        }
        return;
      }
      var ahead := Tile(c, r + emptySpaces);
      if ahead == 0 {
        emptySpaces', shifted, lane' := emptySpaces, true, lane[i := 0][i - emptySpaces := curr];
        assert CompactLoop(l0, i + 1, lane', emptySpaces', moved || shifted) by {
          CompactShift(l0, i, emptySpaces, moved);
        }
        Shift(c, r, emptySpaces, lane);
      } else {
        emptySpaces', shifted, lane' := emptySpaces, false, lane;
        assert CompactLoop(l0, i + 1, lane', emptySpaces', moved || shifted) by {
          CompactStay(l0, i, moved);
        }
      }
    }

    /** Moves the tile at logical (c, r) e rows ahead, onto an empty cell. */
    method Shift(c: int, r: int, e: int, ghost lane: Lane)
      requires Shaped() && 0 <= c < size && 0 <= r && 0 < e && r + e < size
      requires View()[c] == lane && lane[size - 1 - r] != 0 && lane[size - 1 - r - e] == 0
      modifies board
      ensures View() == old(View())[c := lane[size - 1 - r := 0][size - 1 - r - e := lane[size - 1 - r]]]
    {
      Move(c, r + e, r);
    }

    /** The merge pass on logical column c: from the leading row down, a
        tile equal to the tile behind it absorbs that tile, doubling, and the
        score grows by the doubled value. */
    method MergeColumn(c: int, ghost l0: Lane) returns (merged: bool)
      requires Shaped() && 0 <= c < size && View()[c] == l0
      modifies board, this`score
      ensures View() == old(View())[c := Scan(l0)]
      ensures score == old(score) + ScanGain(l0)
      ensures merged <==> Scan(l0) != l0
    {
      ghost var v0 := View();
      ghost var lane := l0;
      ghost var gain := 0;
      merged := false;
      var r := size - 1;
      ghost var i: nat := 0;
      assert ScanLoop(l0, 0, l0, 0, false) by {
        ScanStart(l0);
      }
      while r > 0
        invariant 0 <= r < size && i == size - 1 - r
        invariant View() == v0[c := lane] && score == old(score) + gain
        invariant ScanLoop(l0, i, lane, gain, merged)
      {
        var m;
        m, lane, gain := MergeCell(c, r, l0, i, lane, gain, merged);
        merged := merged || m;
        r := r - 1;
        i := i + 1;
      }
      assert lane == Scan(l0) && gain == ScanGain(l0) && (merged <==> Scan(l0) != l0) by {
        ScanDone(l0, lane, gain, merged);
      }
    }

    /** One step of the merge pass at logical (c, r): when the tiles at rows
        r and r - 1 are equal, the one at r - 1 is moved onto the one at r,
        doubling it, and the score grows by the new value. */
    method MergeCell(c: int, r: int, ghost l0: Lane, ghost i: nat, ghost lane: Lane, ghost gain: int, ghost merged: bool)
        returns (m: bool, ghost lane': Lane, ghost gain': int)
      requires Shaped() && 0 <= c < size && 0 < r < size && |l0| == size && i == size - 1 - r
      requires View()[c] == lane && ScanLoop(l0, i, lane, gain, merged)
      modifies board, this`score
      ensures View() == old(View())[c := lane'] && score == old(score) + (gain' - gain)
      ensures ScanLoop(l0, i + 1, lane', gain', merged || m)
    {
      if Tile(c, r) != 0 && Tile(c, r - 1) != 0 && Tile(c, r) == Tile(c, r - 1) {
        var mergeTile := Tile(c, r - 1);
        m, lane', gain' := true, lane[i + 1 := 0][i := 2 * mergeTile], gain + 2 * mergeTile;
        assert ScanLoop(l0, i + 1, lane', gain', merged || m) by {
          ScanMerge(l0, i, lane, gain, merged);
        }
        Absorb(c, r, lane);
        score := score + mergeTile * 2;
      } else {
        m, lane', gain' := false, lane, gain;
        assert ScanLoop(l0, i + 1, lane', gain', merged || m) by {
          ScanPass(l0, i, lane, gain, merged);
        }
      }
    }

    /** Moves the tile at logical (c, r - 1) onto the equal tile at (c, r). */
    method Absorb(c: int, r: int, ghost lane: Lane)
      requires Shaped() && 0 <= c < size && 0 < r < size
      requires View()[c] == lane && lane[size - 1 - r] != 0 && lane[size - r] == lane[size - 1 - r]
      modifies board
      ensures View() == old(View())[c := lane[size - r := 0][size - 1 - r := 2 * lane[size - r]]]
    {
      Move(c, r, r - 1);
    }

    /** One compaction pass over every logical column. */
    method CompactPass() returns (moved: bool)
      requires Shaped()
      modifies board
      ensures View() == CompactAll(old(View()), size)
      ensures moved <==> View() != old(View())
    {
      ghost var v0 := View();
      moved := false;
      var c := 0;
      assert PassUpTo(v0, size, 0, Compact) == v0 by {
        PassUpToEnds(v0, size);
      }
      while c < size
        invariant 0 <= c <= size
        invariant View() == PassUpTo(v0, size, c, Compact)
        invariant moved <==> PassUpTo(v0, size, c, Compact) != v0
      {
        ghost var lane := v0[c];
        var m := CompactColumn(c, lane);
        assert View() == PassUpTo(v0, size, c + 1, Compact) && (moved || m <==> PassUpTo(v0, size, c + 1, Compact) != v0) by {
          PassUpToStep(v0, size, c, Compact);
        }
        moved := moved || m;
        c := c + 1;
      }
      assert View() == CompactAll(v0, size) by {
        PassUpToEnds(v0, size);
      }
    }

    /** One merge pass over every logical column. */
    method MergePass() returns (merged: bool)
      requires Shaped()
      modifies board, this`score
      ensures View() == ScanAll(old(View()), size)
      ensures score == old(score) + LaneTotal(old(View()), ScanGain)
      ensures merged <==> View() != old(View())
    {
      ghost var v0 := View();
      ghost var score0 := score;
      ghost var gain := 0;
      merged := false;
      var c := 0;
      assert PassUpTo(v0, size, 0, Scan) == v0 by {
        PassUpToEnds(v0, size);
      }
      while c < size
        invariant 0 <= c <= size
        invariant View() == PassUpTo(v0, size, c, Scan)
        invariant score == score0 + gain && gain == GainUpTo(v0, c)
        invariant merged <==> PassUpTo(v0, size, c, Scan) != v0
      {
        ghost var lane := v0[c];
        var m := MergeColumn(c, lane);
        assert View() == PassUpTo(v0, size, c + 1, Scan) && (merged || m <==> PassUpTo(v0, size, c + 1, Scan) != v0) by {
          PassUpToStep(v0, size, c, Scan);
        }
        gain := gain + ScanGain(lane);
        merged := merged || m;
        c := c + 1;
      }
      assert View() == ScanAll(v0, size) by {
        PassUpToEnds(v0, size);
      }
      assert gain == LaneTotal(v0, ScanGain) by {
        GainUpToTotal(v0, size);
        assert v0[..size] == v0;
      }
    }

    /** The three passes of a tilt in the current perspective: compact,
        merge, compact again. Each lane ends up slid; the score gains the
        merged values; reports whether any pass changed the board. */
    method SlidePasses() returns (changed: bool)
      requires Shaped()
      modifies board, this`score
      ensures View() == SlideAll(old(View()), size)
      ensures score == old(score) + LaneTotal(old(View()), GainOf)
      ensures changed <==> View() != old(View())
    {
      ghost var ls := View();
      var m1 := CompactPass();
      var m2 := MergePass();
      var m3 := CompactPass();
      changed := m1 || m2 || m3;
      assert View() == SlideAll(ls, size) && (changed <==> View() != ls) by {
        PassesSlide(ls, size);
      }
      assert score == old(score) + LaneTotal(ls, GainOf) by {
        PassesGainAll(ls, size);
      }
    }

    /** Tilts the board toward `side`: every tile slides as far as it can
        toward that edge, equal tiles meeting there merge once, leading pair
        first, and the merged values are added to the score. Reports whether
        the board changed, after re-evaluating the game-over flag. */
    method Tilt(side: Side) returns (result: Outcome<bool>)
      requires Valid()
      modifies this, board
      ensures Valid()
      ensures Cells() == TiltBoard(old(Cells()), side, size)
      ensures score == old(score) + TiltGain(old(Cells()), side, size)
      ensures maxScore == old(maxScore)
      ensures Over(Cells(), size) == IndexFault ==> result == IndexFault && gameOver == old(gameOver)
      ensures Over(Cells(), size) != IndexFault ==>
                result == Done(Cells() != old(Cells())) && gameOver == Over(Cells(), size).value
      ensures result == Done(false) ==> score == old(score)
    {
      ghost var g0 := Cells();
      perspective := side;
      var changed := SlidePasses();
      ghost var g1 := Cells();
      assert g1 == TiltBoard(g0, side, size) && (changed <==> g1 != g0) by {
        RoundTrip(g1, Lanes(g0, side, size), side, size);
        LanesInjective(g1, g0, side, size);
      }
      assert !changed ==> TiltGain(g0, side, size) == 0 by {
        if !changed {
          NoOpTilt(g0, side, size);
        }
      }
      perspective := North;
      var ok := CheckGameOver();
      if ok {
        result := Done(changed);
      } else {
        result := IndexFault;
      }
    }

    /** Re-evaluates the game-over flag; on an index fault the flag keeps
        its old value. */
    method CheckGameOver() returns (ok: bool)
      requires Valid()
      modifies this`gameOver
      ensures ok <==> Over(Cells(), size) != IndexFault
      ensures gameOver == if ok then Over(Cells(), size).value else old(gameOver)
    {
      var over := CheckGameOverOf(board);
      match over
      case Done(v) =>
        gameOver := v;
        ok := true;
      case IndexFault =>
        ok := false;
    }

    /** Whether the game on `b` is over: a tile reached the maximum piece,
        or no move is left. */
    static method CheckGameOverOf(b: array2<int>) returns (over: Outcome<bool>)
      requires b.Length0 == b.Length1
      ensures over == Over(Snapshot(b), b.Length0)
    {
      var max := MaxTileExists(b);
      if max {
        return Done(true);
      }
      var moves := AtLeastOneMoveExists(b);
      match moves
      case Done(m) =>
        over := Done(!m);
      case IndexFault =>
        over := IndexFault;
    }

    /** Whether some cell of `b` is empty; rows in increasing order, columns
        within a row. */
    static method EmptySpaceExists(b: array2<int>) returns (found: bool)
      requires b.Length0 == b.Length1
      ensures found <==> HasEmptyCell(Snapshot(b), b.Length0)
    {
      var dim := b.Length0;
      var r := 0;
      while r < dim
        invariant 0 <= r <= dim
        invariant forall x, y :: 0 <= x < dim && 0 <= y < r ==> b[x, y] != 0
      {
        var c := 0;
        while c < dim
          invariant 0 <= c <= dim
          invariant forall x, y :: 0 <= x < dim && 0 <= y < r ==> b[x, y] != 0
          invariant forall x :: 0 <= x < c ==> b[x, r] != 0
        {
          if b[c, r] == 0 {
            assert Snapshot(b)[c][r] == 0;
            return true;
          }
          c := c + 1;
        }
        r := r + 1;
      }
      return false;
    }

    /** Whether some tile of `b` has the maximum piece value; columns in
        increasing order, rows within a column. */
    static method MaxTileExists(b: array2<int>) returns (found: bool)
      requires b.Length0 == b.Length1
      ensures found <==> HasMaxTile(Snapshot(b), b.Length0)
    {
      var dim := b.Length0;
      var c := 0;
      while c < dim
        invariant 0 <= c <= dim
        invariant forall x, y :: 0 <= x < c && 0 <= y < dim ==> b[x, y] != MaxPiece
      {
        var r := 0;
        while r < dim
          invariant 0 <= r <= dim
          invariant forall x, y :: 0 <= x < c && 0 <= y < dim ==> b[x, y] != MaxPiece
          invariant forall y :: 0 <= y < r ==> b[c, y] != MaxPiece
        {
          if b[c, r] != 0 && b[c, r] == MaxPiece {
            assert Snapshot(b)[c][r] == MaxPiece;
            return true;
          }
          r := r + 1;
        }
        c := c + 1;
      }
      return false;
    }

    /** Whether a move is left on `b`, as the engine decides it: an empty
        cell, or an equal neighbour found by the guarded scan. Reading a
        neighbour outside the board is an index fault. */
    static method AtLeastOneMoveExists(b: array2<int>) returns (result: Outcome<bool>)
      requires b.Length0 == b.Length1
      ensures result == AtLeastOneMove(Snapshot(b), b.Length0)
    {
      var empty := EmptySpaceExists(b);
      if empty {
        return Done(true);
      }
      var dim := b.Length0;
      ghost var g := Snapshot(b);
      var c := 0;
      while c < dim
        invariant 0 <= c <= dim
        invariant MovesFrom(g, dim, c, 0) == MovesFrom(g, dim, 0, 0)
      {
        var r := 0;
        while r < dim
          invariant 0 <= r <= dim
          invariant MovesFrom(g, dim, c, r) == MovesFrom(g, dim, 0, 0)
        {
          var curr := b[c, r];
          var cRight, rUp, cLeft, rDown := c + 1, r + 1, c - 1, r - 1;
          if cRight > 0 && cRight < 4 && rUp > 0 && rUp < 4 {
            if cRight >= dim || rUp >= dim {
              return IndexFault;
            }
            var right := b[cRight, r];
            var up := b[c, rUp];
            if right != 0 && right == curr {
              return Done(true);
            }
            if up != 0 && up == curr {
              return Done(true);
            }
          }
          if cLeft > 0 && cLeft < 4 && rDown > 0 && rDown < 4 {
            var left := b[cLeft, r];
            var down := b[c, rDown];
            if left != 0 && left == curr {
              return Done(true);
            }
            if down != 0 && down == curr {
              return Done(true);
            }
          }
          r := r + 1;
        }
        c := c + 1;
      }
      return Done(false);
    }

    /** Whether the game is over, re-evaluating the flag first; when it is
        over, the best score becomes at least the current score. */
    method GameOver() returns (result: Outcome<bool>)
      requires Valid()
      modifies this`gameOver, this`maxScore
      ensures result == Over(Cells(), size)
      ensures result != IndexFault ==> gameOver == result.value
      ensures result == IndexFault ==> gameOver == old(gameOver)
      ensures maxScore == if result == Done(true) && score > old(maxScore) then score else old(maxScore)
      ensures maxScore >= old(maxScore)
      ensures result == Done(true) ==> maxScore >= score
    {
      var ok := CheckGameOver();
      if !ok {
        return IndexFault;
      }
      if gameOver {
        maxScore := if score > maxScore then score else maxScore;
      }
      result := Done(gameOver);
    }

    /** Empties the board and resets the score and the game-over flag; the
        best score is kept. */
    method Clear()
      requires Valid()
      modifies board, this`score, this`gameOver
      ensures Valid()
      ensures Cells() == EmptyBoard(size)
      ensures score == 0 && !gameOver
    {
      score := 0;
      gameOver := false;
      forall x, y | 0 <= x < size && 0 <= y < size {
        board[x, y] := 0;
      }
      GridExt(Cells(), EmptyBoard(size), size);
    }

    /** Places a tile of `value` on the empty cell (c, r), then re-evaluates
        the game-over flag. */
    method AddTile(c: int, r: int, value: int) returns (ok: bool)
      requires Valid() && 0 <= c < size && 0 <= r < size
      requires Cells()[c][r] == 0 && value > 0
      modifies board, this`gameOver
      ensures Valid()
      ensures Cells() == old(Cells())[c := old(Cells())[c][r := value]]
      ensures ok <==> Over(Cells(), size) != IndexFault
      ensures gameOver == if ok then Over(Cells(), size).value else old(gameOver)
    {
      ghost var g0 := Cells();
      board[c, r] := value;
      GridExt(Cells(), g0[c := g0[c][r := value]], size);
      ok := CheckGameOver();
    }
  }
}
