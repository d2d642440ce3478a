/** The board's viewing perspective. The board stores tiles in absolute
    coordinates, column x and row y of an n by n grid with (0, 0) the
    lower-left corner. Viewed from side `s`, the logical cell (c, r) is the
    absolute cell (Col(s, n, c, r), Row(s, n, c, r)), so that logical row n-1
    lies along edge `s`: tilting toward `s` is tilting toward logical north.
    The rotation below is this model's choice of the perspective map: it is
    proved a bijection of the grid and the identity for North, and what a
    tilt toward East, South or West does to absolute cells is stated through
    this rotation. */
module Perspective {
  datatype Side = North | East | South | West

  type Grid = seq<seq<int>>

  /** `g` is square with side `n`; g[x][y] is the cell in column x, row y. */
  ghost predicate IsGrid(g: Grid, n: nat) {
    |g| == n && forall x :: 0 <= x < n ==> |g[x]| == n
  }

  function Col(side: Side, n: nat, c: int, r: int): (x: int)
    requires 0 <= c < n && 0 <= r < n
    ensures 0 <= x < n
  {
    match side
    case North => c
    case East => r
    case South => n - 1 - c
    case West => n - 1 - r
  }

  function Row(side: Side, n: nat, c: int, r: int): (y: int)
    requires 0 <= c < n && 0 <= r < n
    ensures 0 <= y < n
  {
    match side
    case North => r
    case East => n - 1 - c
    case South => n - 1 - r
    case West => c
  }

  /** The logical column in perspective `side` of the absolute cell (x, y). */
  function LogicalCol(side: Side, n: nat, x: int, y: int): (c: int)
    requires 0 <= x < n && 0 <= y < n
    ensures 0 <= c < n
  {
    match side
    case North => x
    case East => n - 1 - y
    case South => n - 1 - x
    case West => y
  }

  /** The logical row in perspective `side` of the absolute cell (x, y). */
  function LogicalRow(side: Side, n: nat, x: int, y: int): (r: int)
    requires 0 <= x < n && 0 <= y < n
    ensures 0 <= r < n
  {
    match side
    case North => y
    case East => x
    case South => n - 1 - y
    case West => n - 1 - x
  }

  /** The perspective is a bijection of the grid onto itself, and the
      identity when viewed from North. */
  lemma Bijection(side: Side, n: nat)
    ensures forall c, r :: 0 <= c < n && 0 <= r < n ==>
      LogicalCol(side, n, Col(side, n, c, r), Row(side, n, c, r)) == c &&
      LogicalRow(side, n, Col(side, n, c, r), Row(side, n, c, r)) == r
    ensures forall x, y :: 0 <= x < n && 0 <= y < n ==>
      Col(side, n, LogicalCol(side, n, x, y), LogicalRow(side, n, x, y)) == x &&
      Row(side, n, LogicalCol(side, n, x, y), LogicalRow(side, n, x, y)) == y
    ensures forall c, r :: 0 <= c < n && 0 <= r < n ==>
      Col(North, n, c, r) == c && Row(North, n, c, r) == r
  {
  }

  /** The lanes of `g` seen from `side`: lane c is logical column c, read
      from logical row n-1 (the edge toward `side`) down to row 0. */
  function Lanes(g: Grid, side: Side, n: nat): (ls: Grid)
    requires IsGrid(g, n)
    ensures IsGrid(ls, n)
  {
    seq(n, c requires 0 <= c < n =>
      seq(n, i requires 0 <= i < n =>
        g[Col(side, n, c, n - 1 - i)][Row(side, n, c, n - 1 - i)]))
  }

  /** The grid whose lanes seen from `side` are `ls`. */
  function FromLanes(ls: Grid, side: Side, n: nat): (g: Grid)
    requires IsGrid(ls, n)
    ensures IsGrid(g, n)
  {
    seq(n, x requires 0 <= x < n =>
      seq(n, y requires 0 <= y < n =>
        ls[LogicalCol(side, n, x, y)][n - 1 - LogicalRow(side, n, x, y)]))
  }

  lemma GridExt(a: Grid, b: Grid, n: nat)
    requires IsGrid(a, n) && IsGrid(b, n)
    requires forall x, y :: 0 <= x < n && 0 <= y < n ==> a[x][y] == b[x][y]
    ensures a == b
  {
    forall x | 0 <= x < n ensures a[x] == b[x] {
      assert forall y :: 0 <= y < n ==> a[x][y] == b[x][y];
    }
  }

  /** Viewing a grid and storing it back is lossless in both directions. */
  lemma RoundTrip(g: Grid, ls: Grid, side: Side, n: nat)
    requires IsGrid(g, n) && IsGrid(ls, n)
    ensures FromLanes(Lanes(g, side, n), side, n) == g
    ensures Lanes(FromLanes(ls, side, n), side, n) == ls
  {
    Bijection(side, n);
    GridExt(FromLanes(Lanes(g, side, n), side, n), g, n);
    GridExt(Lanes(FromLanes(ls, side, n), side, n), ls, n);
  }

  /** Two grids are equal exactly when their lanes are. */
  lemma LanesInjective(g: Grid, h: Grid, side: Side, n: nat)
    requires IsGrid(g, n) && IsGrid(h, n)
    ensures Lanes(g, side, n) == Lanes(h, side, n) <==> g == h
  {
    RoundTrip(g, g, side, n);
    RoundTrip(h, h, side, n);
  }

  /** Writing one absolute cell writes exactly one lane cell. */
  lemma LanesWrite(g: Grid, side: Side, n: nat, c: int, r: int, v: int)
    requires IsGrid(g, n) && 0 <= c < n && 0 <= r < n
    ensures IsGrid(g[Col(side, n, c, r) := g[Col(side, n, c, r)][Row(side, n, c, r) := v]], n)
    ensures Lanes(g[Col(side, n, c, r) := g[Col(side, n, c, r)][Row(side, n, c, r) := v]], side, n)
         == Lanes(g, side, n)[c := Lanes(g, side, n)[c][n - 1 - r := v]]
  {
    var x, y := Col(side, n, c, r), Row(side, n, c, r);
    var h := g[x := g[x][y := v]];
    var ls := Lanes(g, side, n);
    Bijection(side, n);
    GridExt(Lanes(h, side, n), ls[c := ls[c][n - 1 - r := v]], n);
  }
  /** A tile move within logical column c, from row tr to another row r,
      seen in the lanes: the source cell is emptied, then the destination
      receives the tile's value, doubled if the destination was occupied. */
  lemma LanesMove(g: Grid, side: Side, n: nat, c: int, r: int, tr: int)
    requires IsGrid(g, n)
    requires 0 <= c < n && 0 <= r < n && 0 <= tr < n && r != tr
    ensures var x, y := Col(side, n, c, r), Row(side, n, c, r);
            var sx, sy := Col(side, n, c, tr), Row(side, n, c, tr);
            var w := if g[x][y] == 0 then g[sx][sy] else 2 * g[sx][sy];
            var h1 := g[sx := g[sx][sy := 0]];
            var h := h1[x := h1[x][y := w]];
            var l := Lanes(g, side, n)[c];
            var i, j := n - 1 - r, n - 1 - tr;
            IsGrid(h, n) &&
            Lanes(h, side, n) == Lanes(g, side, n)[c := l[j := 0][i := if l[i] == 0 then l[j] else 2 * l[j]]]
  {
    var x, y := Col(side, n, c, r), Row(side, n, c, r);
    var sx, sy := Col(side, n, c, tr), Row(side, n, c, tr);
    Bijection(side, n);
    assert x != sx || y != sy;
    var v0 := Lanes(g, side, n);
    assert v0[c][n - 1 - r] == g[x][y];
    assert v0[c][n - 1 - tr] == g[sx][sy];
    LanesWrite(g, side, n, c, tr, 0);
    var h1 := g[sx := g[sx][sy := 0]];
    assert h1[x][y] == g[x][y];
    var w := if g[x][y] == 0 then g[sx][sy] else 2 * g[sx][sy];
    LanesWrite(h1, side, n, c, r, w);
  }
}
