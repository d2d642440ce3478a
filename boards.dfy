/** What a whole tilt does to the board, as a function of the board before
    it, and the quantities a tilt conserves. */
module Boards {
  import opened Columns
  import opened Perspective

  /** Every lane slid. */
  function SlideAll(ls: Grid, n: nat): (ts: Grid)
    requires IsGrid(ls, n)
    ensures IsGrid(ts, n)
  {
    seq(n, c requires 0 <= c < n => Slide(ls[c]))
  }

  /** The board after tilting `g` toward `side`: every lane seen from `side`
      slid toward that side. */
  function TiltBoard(g: Grid, side: Side, n: nat): (t: Grid)
    requires IsGrid(g, n)
    ensures IsGrid(t, n)
  {
    FromLanes(SlideAll(Lanes(g, side, n), n), side, n)
  }

  /** The sum over lanes of what `f` says of each. */
  function LaneTotal(ls: Grid, f: seq<int> -> int): int {
    if ls == [] then 0 else f(ls[0]) + LaneTotal(ls[1..], f)
  }

  function GainOf(l: seq<int>): int { MergeGain(Tiles(l)) }

  function MergesOf(l: seq<int>): int { MergeCount(Tiles(l)) }

  /** The score a tilt toward `side` earns on `g`. */
  function TiltGain(g: Grid, side: Side, n: nat): int
    requires IsGrid(g, n)
  {
    LaneTotal(Lanes(g, side, n), GainOf)
  }

  /** The number of merges a tilt toward `side` performs on `g`. */
  function TiltMerges(g: Grid, side: Side, n: nat): int
    requires IsGrid(g, n)
  {
    LaneTotal(Lanes(g, side, n), MergesOf)
  }

  function Value(v: int): int { v }

  function Occupied(v: int): int { if v == 0 then 0 else 1 }

  /** The sum of `w` over the cells of a sequence. */
  function Weight(s: seq<int>, w: int -> int): int {
    if s == [] then 0 else w(s[0]) + Weight(s[1..], w)
  }

  /** The sum of `w` over all cells of a grid. */
  function Total(g: Grid, w: int -> int): int {
    if g == [] then 0 else Weight(g[0], w) + Total(g[1..], w)
  }

  /** The total value of the tiles of `g`. */
  function TileSum(g: Grid): int { Total(g, Value) }

  /** The number of tiles on `g`. */
  function TileCount(g: Grid): int { Total(g, Occupied) }

  // ---------------------------------------------------------------------
  // Reordering cells keeps totals

  lemma {:induction false} WeightAppend(a: seq<int>, b: seq<int>, w: int -> int)
    ensures Weight(a + b, w) == Weight(a, w) + Weight(b, w)
  {
    if a == [] {
      assert a + b == b;
    } else {
      assert (a + b)[1..] == a[1..] + b;
      WeightAppend(a[1..], b, w);
    }
  }

  function Reverse<T>(s: seq<T>): (r: seq<T>)
    ensures |r| == |s|
  {
    seq(|s|, i requires 0 <= i < |s| => s[|s| - 1 - i])
  }

  lemma {:induction false} WeightReverse(s: seq<int>, w: int -> int)
    ensures Weight(Reverse(s), w) == Weight(s, w)
  {
    if s != [] {
      assert Reverse(s) == Reverse(s[1..]) + [s[0]];
      WeightReverse(s[1..], w);
      WeightAppend(Reverse(s[1..]), [s[0]], w);
    }
  }

  lemma {:induction false} TotalAppend(a: Grid, b: Grid, w: int -> int)
    ensures Total(a + b, w) == Total(a, w) + Total(b, w)
  {
    if a == [] {
      assert a + b == b;
    } else {
      assert (a + b)[1..] == a[1..] + b;
      TotalAppend(a[1..], b, w);
    }
  }

  lemma {:induction false} TotalReverse(g: Grid, w: int -> int)
    ensures Total(Reverse(g), w) == Total(g, w)
  {
    if g != [] {
      assert Reverse(g) == Reverse(g[1..]) + [g[0]];
      TotalReverse(g[1..], w);
      TotalAppend(Reverse(g[1..]), [g[0]], w);
    }
  }

  /** Every row of `g` reversed. */
  function ReverseRows(g: Grid): (h: Grid)
    ensures |h| == |g|
  {
    seq(|g|, x requires 0 <= x < |g| => Reverse(g[x]))
  }

  lemma {:induction false} TotalReverseRows(g: Grid, w: int -> int)
    ensures Total(ReverseRows(g), w) == Total(g, w)
  {
    if g != [] {
      assert ReverseRows(g)[1..] == ReverseRows(g[1..]);
      WeightReverse(g[0], w);
      TotalReverseRows(g[1..], w);
    }
  }

  /** The n by |g| grid whose cell (c, x) is cell (x, c) of `g`. */
  function Transpose(g: Grid, n: nat): (h: Grid)
    requires forall x :: 0 <= x < |g| ==> |g[x]| == n
    ensures |h| == n
  {
    seq(n, c requires 0 <= c < n => seq(|g|, x requires 0 <= x < |g| => g[x][c]))
  }

  lemma RowsExt(a: Grid, b: Grid)
    requires |a| == |b| && forall x :: 0 <= x < |a| ==> |a[x]| == |b[x]|
    requires forall x, y :: 0 <= x < |a| && 0 <= y < |a[x]| ==> a[x][y] == b[x][y]
    ensures a == b
  {
    forall x | 0 <= x < |a| ensures a[x] == b[x] {
      assert forall y :: 0 <= y < |a[x]| ==> a[x][y] == b[x][y];
    }
  }

  /** Adding one cell in front of every row adds that column's weight. */
  lemma {:induction false} TotalCons(a: seq<int>, b: Grid, w: int -> int)
    requires |a| == |b|
    ensures Total(seq(|a|, c requires 0 <= c < |a| => [a[c]] + b[c]), w) == Weight(a, w) + Total(b, w)
  {
    var z := seq(|a|, c requires 0 <= c < |a| => [a[c]] + b[c]);
    if a != [] {
      var z' := seq(|a| - 1, c requires 0 <= c < |a| - 1 => [a[1..][c]] + b[1..][c]);
      assert z[1..] == z';
      assert ([a[0]] + b[0])[1..] == b[0];
      TotalCons(a[1..], b[1..], w);
    }
  }

  /** `n` rows without cells. */
  function NoCells(n: nat): (g: Grid)
    ensures |g| == n && forall x :: 0 <= x < n ==> g[x] == []
  {
    seq(n, _ => [])
  }

  lemma {:induction false} TotalOfNoCells(n: nat, w: int -> int)
    ensures Total(NoCells(n), w) == 0
  {
    if n > 0 {
      assert NoCells(n)[1..] == NoCells(n - 1);
      TotalOfNoCells(n - 1, w);
    }
  }

  lemma {:induction false} TotalTranspose(g: Grid, n: nat, w: int -> int)
    requires forall x :: 0 <= x < |g| ==> |g[x]| == n
    ensures Total(Transpose(g, n), w) == Total(g, w)
  {
    if g == [] {
      RowsExt(Transpose(g, n), NoCells(n));
      TotalOfNoCells(n, w);
    } else {
      var t' := Transpose(g[1..], n);
      RowsExt(Transpose(g, n), seq(|g[0]|, c requires 0 <= c < |g[0]| => [g[0][c]] + t'[c]));
      TotalCons(g[0], t', w);
      TotalTranspose(g[1..], n, w);
    }
  }

  /** Seen from any side, the lanes hold the same cells as the board. */
  lemma LanesTotal(g: Grid, side: Side, n: nat, w: int -> int)
    requires IsGrid(g, n)
    ensures Total(Lanes(g, side, n), w) == Total(g, w)
  {
    var ls := Lanes(g, side, n);
    var t := Transpose(g, n);
    if side == North {
      forall x, y | 0 <= x < n && 0 <= y < n ensures ls[x][y] == ReverseRows(g)[x][y] {
        assert ls[x][y] == g[x][n - 1 - y];
      }
      RowsExt(ls, ReverseRows(g));
      TotalReverseRows(g, w);
    } else if side == South {
      forall x, y | 0 <= x < n && 0 <= y < n ensures ls[x][y] == Reverse(g)[x][y] {
        assert ls[x][y] == g[Col(side, n, x, n - 1 - y)][Row(side, n, x, n - 1 - y)];
        assert ls[x][y] == g[n - 1 - x][y];
      }
      RowsExt(ls, Reverse(g));
      TotalReverse(g, w);
    } else if side == West {
      forall x, y | 0 <= x < n && 0 <= y < n ensures ls[x][y] == t[x][y] {
        assert ls[x][y] == g[Col(side, n, x, n - 1 - y)][Row(side, n, x, n - 1 - y)];
        assert ls[x][y] == g[y][x];
      }
      RowsExt(ls, t);
      TotalTranspose(g, n, w);
    } else {
      forall x, y | 0 <= x < n && 0 <= y < n ensures ls[x][y] == Reverse(ReverseRows(t))[x][y] {
        assert ls[x][y] == g[Col(side, n, x, n - 1 - y)][Row(side, n, x, n - 1 - y)];
        assert ls[x][y] == g[n - 1 - y][n - 1 - x];
      }
      RowsExt(ls, Reverse(ReverseRows(t)));
      TotalReverse(ReverseRows(t), w);
      TotalReverseRows(t, w);
      TotalTranspose(g, n, w);
    }
  }

  // ---------------------------------------------------------------------
  // Conservation across a tilt

  lemma {:induction false} WeightValue(s: seq<int>)
    ensures Weight(s, Value) == Sum(s)
  {
    if s != [] {
      WeightValue(s[1..]);
    }
  }

  lemma {:induction false} WeightOccupied(s: seq<int>)
    ensures Weight(s, Occupied) == |Tiles(s)|
  {
    if s != [] {
      WeightOccupied(s[1..]);
    }
  }

  /** Sliding every lane keeps the total value and removes one tile per merge. */
  lemma {:induction false} SlideTotals(ls: Grid)
    ensures Total(seq(|ls|, c requires 0 <= c < |ls| => Slide(ls[c])), Value) == Total(ls, Value)
    ensures Total(seq(|ls|, c requires 0 <= c < |ls| => Slide(ls[c])), Occupied) + LaneTotal(ls, MergesOf)
            == Total(ls, Occupied)
  {
    var ss := seq(|ls|, c requires 0 <= c < |ls| => Slide(ls[c]));
    if ls != [] {
      assert ss[1..] == seq(|ls[1..]|, c requires 0 <= c < |ls[1..]| => Slide(ls[1..][c]));
      SlideTotals(ls[1..]);
      SlideConserves(ls[0]);
      WeightValue(ss[0]);
      WeightValue(ls[0]);
      WeightOccupied(ss[0]);
      WeightOccupied(ls[0]);
    }
  }

  /** A tilt keeps the total value of the tiles on the board, and the number
      of tiles drops by the number of merges. */
  lemma TiltConserves(g: Grid, side: Side, n: nat)
    requires IsGrid(g, n)
    ensures TileSum(TiltBoard(g, side, n)) == TileSum(g)
    ensures TileCount(TiltBoard(g, side, n)) + TiltMerges(g, side, n) == TileCount(g)
  {
    var ls := Lanes(g, side, n);
    var ss := SlideAll(ls, n);
    RoundTrip(g, ss, side, n);
    LanesTotal(g, side, n, Value);
    LanesTotal(g, side, n, Occupied);
    LanesTotal(TiltBoard(g, side, n), side, n, Value);
    LanesTotal(TiltBoard(g, side, n), side, n, Occupied);
    SlideTotals(ls);
  }

  /** The lanes of a tilted board are the slid lanes of the board before. */
  lemma TiltLanes(g: Grid, side: Side, n: nat)
    requires IsGrid(g, n)
    ensures forall c :: 0 <= c < n ==>
      Lanes(TiltBoard(g, side, n), side, n)[c] == Slide(Lanes(g, side, n)[c])
  {
    RoundTrip(g, SlideAll(Lanes(g, side, n), n), side, n);
  }

  // ---------------------------------------------------------------------
  // The three passes of a tilt, lane by lane

  /** Every lane after a compaction pass. */
  function CompactAll(ls: Grid, n: nat): (cs: Grid)
    requires IsGrid(ls, n)
    ensures IsGrid(cs, n)
  {
    seq(n, c requires 0 <= c < n => Compact(ls[c]))
  }

  /** Every lane after the merge pass. */
  function ScanAll(ls: Grid, n: nat): (ss: Grid)
    requires IsGrid(ls, n)
    ensures IsGrid(ss, n)
  {
    seq(n, c requires 0 <= c < n => Scan(ls[c]))
  }

  /** Compacting, merging and compacting again slides every lane; some pass
      changes a lane exactly when the tilt as a whole does. */
  lemma PassesSlide(ls: Grid, n: nat)
    requires IsGrid(ls, n)
    ensures CompactAll(ScanAll(CompactAll(ls, n), n), n) == SlideAll(ls, n)
    ensures (CompactAll(ls, n) != ls
             || ScanAll(CompactAll(ls, n), n) != CompactAll(ls, n)
             || CompactAll(ScanAll(CompactAll(ls, n), n), n) != ScanAll(CompactAll(ls, n), n))
            <==> SlideAll(ls, n) != ls
  {
    var c1 := CompactAll(ls, n);
    var s := ScanAll(c1, n);
    var c2 := CompactAll(s, n);
    forall c | 0 <= c < n ensures c2[c] == Slide(ls[c]) {
      TiltPasses(ls[c]);
    }
    assert c2 == SlideAll(ls, n);
    if SlideAll(ls, n) != ls {
      var c :| 0 <= c < n && Slide(ls[c]) != ls[c];
      SlideChanged(ls[c]);
      assert c1[c] != ls[c] || s[c] != c1[c] || c2[c] != s[c];
    } else {
      forall c | 0 <= c < n ensures c1[c] == ls[c] && s[c] == c1[c] && c2[c] == s[c] {
        SlideChanged(ls[c]);
      }
      assert c1 == ls && s == c1 && c2 == s;
    }
  }

  lemma {:induction false} LaneTotalAppend(a: Grid, b: Grid, f: seq<int> -> int)
    ensures LaneTotal(a + b, f) == LaneTotal(a, f) + LaneTotal(b, f)
  {
    if a == [] {
      assert a + b == b;
    } else {
      assert (a + b)[1..] == a[1..] + b;
      LaneTotalAppend(a[1..], b, f);
    }
  }

  /** The lanes `ls` once a pass applying `f` to each lane has processed
      the first c of them. */
  function PassUpTo(ls: Grid, n: nat, c: nat, f: Lane -> Lane): (ps: Grid)
    requires IsGrid(ls, n) && c <= n
    ensures |ps| == n
  {
    seq(n, k requires 0 <= k < n => if k < c then f(ls[k]) else ls[k])
  }

  /** Processing lane c changes lane c alone, and the lanes differ from
      `ls` when they did before or lane c changed. */
  lemma PassUpToStep(ls: Grid, n: nat, c: nat, f: Lane -> Lane)
    requires IsGrid(ls, n) && c < n
    ensures PassUpTo(ls, n, c + 1, f) == PassUpTo(ls, n, c, f)[c := f(ls[c])]
    ensures PassUpTo(ls, n, c + 1, f) != ls <==> PassUpTo(ls, n, c, f) != ls || f(ls[c]) != ls[c]
  {
    var before, after := PassUpTo(ls, n, c, f), PassUpTo(ls, n, c + 1, f);
    assert after == before[c := f(ls[c])];
    if after != ls && before == ls {
      var k :| 0 <= k < n && after[k] != ls[k];
      assert k == c;
    }
    if before != ls {
      var k :| 0 <= k < n && before[k] != ls[k];
      assert after[k] != ls[k];
    }
    if f(ls[c]) != ls[c] {
      assert after[c] != ls[c];
    }
  }

  /** Before the pass nothing is processed; at its end every lane is. */
  lemma PassUpToEnds(ls: Grid, n: nat)
    requires IsGrid(ls, n)
    ensures PassUpTo(ls, n, 0, Compact) == ls && PassUpTo(ls, n, 0, Scan) == ls
    ensures PassUpTo(ls, n, n, Compact) == CompactAll(ls, n)
    ensures PassUpTo(ls, n, n, Scan) == ScanAll(ls, n)
  {
  }

  /** The score the merge pass earns on the first c lanes, as the pass
      accumulates it column by column. */
  function GainUpTo(ls: Grid, c: nat): int
    requires c <= |ls|
  {
    if c == 0 then 0 else GainUpTo(ls, c - 1) + ScanGain(ls[c - 1])
  }

  lemma {:induction false} GainUpToTotal(ls: Grid, c: nat)
    requires c <= |ls|
    ensures GainUpTo(ls, c) == LaneTotal(ls[..c], ScanGain)
  {
    if c == 0 {
      assert ls[..0] == [];
    } else {
      GainUpToTotal(ls, c - 1);
      LaneTotalAppend(ls[..c - 1], [ls[c - 1]], ScanGain);
      assert ls[..c] == ls[..c - 1] + [ls[c - 1]];
    }
  }

  /** The merge pass over compacted lanes scores what the greedy merges earn. */
  lemma {:induction false} PassesGain(ls: Grid)
    ensures LaneTotal(seq(|ls|, c requires 0 <= c < |ls| => Compact(ls[c])), ScanGain) == LaneTotal(ls, GainOf)
  {
    var cs := seq(|ls|, c requires 0 <= c < |ls| => Compact(ls[c]));
    if ls != [] {
      assert cs[1..] == seq(|ls[1..]|, c requires 0 <= c < |ls[1..]| => Compact(ls[1..][c]));
      PassesGain(ls[1..]);
      var t := Tiles(ls[0]);
      ScanOfPacked(t, |ls[0]| - |t|);
    }
  }

  /** The same, for the lanes of an n by n grid. */
  lemma PassesGainAll(ls: Grid, n: nat)
    requires IsGrid(ls, n)
    ensures LaneTotal(CompactAll(ls, n), ScanGain) == LaneTotal(ls, GainOf)
  {
    PassesGain(ls);
    assert CompactAll(ls, n) == seq(|ls|, c requires 0 <= c < |ls| => Compact(ls[c]));
  }

  lemma {:induction false} LaneTotalZero(ls: Grid, f: seq<int> -> int)
    requires forall c :: 0 <= c < |ls| ==> f(ls[c]) == 0
    ensures LaneTotal(ls, f) == 0
  {
    if ls != [] {
      LaneTotalZero(ls[1..], f);
    }
  }

  /** A tilt that leaves the board as it was scores nothing. (That repeating
      it changes nothing either is then immediate from the requirement.) */
  lemma NoOpTilt(g: Grid, side: Side, n: nat)
    requires IsGrid(g, n) && TiltBoard(g, side, n) == g
    ensures TiltGain(g, side, n) == 0
    ensures TiltBoard(TiltBoard(g, side, n), side, n) == g
  {
    var ls := Lanes(g, side, n);
    TiltLanes(g, side, n);
    forall c | 0 <= c < n ensures GainOf(ls[c]) == 0 {
      SlideChanged(ls[c]);
    }
    LaneTotalZero(ls, GainOf);
  }

  /** Tilting toward `side` is rotating the board so that `side` is on top,
      tilting north, and rotating back. `TiltBoard` is defined through the
      lanes, so this only unfolds that definition; that the engine's loops
      compute `TiltBoard` is the contract of `Game2048.Model.Tilt`. */
  lemma PerspectiveSymmetry(g: Grid, side: Side, n: nat)
    requires IsGrid(g, n)
    ensures var rotated := FromLanes(Lanes(g, side, n), North, n);
            TiltBoard(g, side, n) == FromLanes(Lanes(TiltBoard(rotated, North, n), North, n), side, n)
  {
    var ls := Lanes(g, side, n);
    var rotated := FromLanes(ls, North, n);
    RoundTrip(rotated, ls, North, n);
    var t := TiltBoard(rotated, North, n);
    RoundTrip(t, SlideAll(ls, n), North, n);
  }
}
