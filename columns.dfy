/** One column of the board, read in the tilt perspective from the leading
    edge (the edge the tiles move toward) to the trailing edge. A cell holds
    0 when it is empty and the tile's value otherwise. This module states,
    on such lanes, what each pass of `tilt` does and what the whole tilt
    does, and proves the merge rules of the tilt documentation. */
module Columns {

  type Lane = seq<int>

  /** `n` empty cells. */
  function Zeros(n: nat): (z: Lane)
    ensures |z| == n && forall k :: 0 <= k < n ==> z[k] == 0
  {
    seq(n, _ => 0)
  }

  /** The values of the tiles of `l`, leading first. */
  function Tiles(l: Lane): (t: seq<int>)
    ensures |t| <= |l|
    ensures forall k :: 0 <= k < |t| ==> t[k] != 0
  {
    if l == [] then []
    else if l[0] == 0 then Tiles(l[1..])
    else [l[0]] + Tiles(l[1..])
  }

  function Sum(s: seq<int>): int {
    if s == [] then 0 else s[0] + Sum(s[1..])
  }

  /** No empty cell lies ahead of a tile. */
  predicate Packed(l: Lane) {
    forall i, j :: 0 <= i < j < |l| && l[i] == 0 ==> l[j] == 0
  }

  /** The tile values `t` packed against the leading edge of a lane of `n` cells. */
  function Pack(t: seq<int>, n: nat): (l: Lane)
    requires |t| <= n
    ensures |l| == n
  {
    t + Zeros(n - |t|)
  }

  /** What a compaction pass of `tilt` leaves in a lane. */
  function Compact(l: Lane): (c: Lane)
    ensures |c| == |l|
  {
    Pack(Tiles(l), |l|)
  }

  /** The greedy merge of tile values read leading first: a leading equal pair
      becomes one tile of twice the value, and the rest is merged on its own. */
  function Merge(t: seq<int>): (m: seq<int>)
    ensures |m| <= |t|
  {
    if |t| >= 2 && t[0] == t[1] then [2 * t[0]] + Merge(t[2..])
    else if t == [] then []
    else [t[0]] + Merge(t[1..])
  }

  /** The score the greedy merge of `t` earns: the new value of every merged tile. */
  function MergeGain(t: seq<int>): int {
    if |t| >= 2 && t[0] == t[1] then 2 * t[0] + MergeGain(t[2..])
    else if t == [] then 0
    else MergeGain(t[1..])
  }

  /** The number of merges the greedy merge of `t` performs. */
  function MergeCount(t: seq<int>): nat {
    if |t| >= 2 && t[0] == t[1] then 1 + MergeCount(t[2..])
    else if t == [] then 0
    else MergeCount(t[1..])
  }

  /** What a whole tilt leaves in a lane: the greedy merge of its tiles,
      packed against the leading edge. */
  function Slide(l: Lane): (s: Lane)
    ensures |s| == |l|
  {
    Pack(Merge(Tiles(l)), |l|)
  }

  /** The merge pass of `tilt` exactly as it runs, leading cell first: an
      occupied cell equal to the occupied cell behind it receives that tile,
      doubled, and the cell behind is emptied. */
  function Scan(l: Lane): (s: Lane)
    ensures |s| == |l|
    decreases |l|
  {
    if |l| < 2 then l
    else if l[0] != 0 && l[1] != 0 && l[0] == l[1] then [2 * l[1]] + Scan([0] + l[2..])
    else [l[0]] + Scan(l[1..])
  }

  /** The score the merge pass adds on lane `l`. */
  function ScanGain(l: Lane): int
    decreases |l|
  {
    if |l| < 2 then 0
    else if l[0] != 0 && l[1] != 0 && l[0] == l[1] then 2 * l[1] + ScanGain([0] + l[2..])
    else ScanGain(l[1..])
  }

  // ---------------------------------------------------------------------
  // Tiles and packing

  lemma {:induction false} TilesAppend(a: Lane, b: Lane)
    ensures Tiles(a + b) == Tiles(a) + Tiles(b)
  {
    if a == [] {
      assert a + b == b;
    } else {
      assert (a + b)[1..] == a[1..] + b;
      TilesAppend(a[1..], b);
    }
  }

  lemma {:induction false} TilesOfZeros(n: nat)
    ensures Tiles(Zeros(n)) == []
  {
    if n > 0 {
      assert Zeros(n)[1..] == Zeros(n - 1);
      TilesOfZeros(n - 1);
    }
  }

  /** A lane whose cells are all tiles is its own list of tiles. */
  lemma {:induction false} TilesOfTiles(t: seq<int>)
    requires forall k :: 0 <= k < |t| ==> t[k] != 0
    ensures Tiles(t) == t
  {
    if t != [] {
      TilesOfTiles(t[1..]);
    }
  }

  /** Packing keeps the tiles, in order, and leaves no gap ahead of a tile. */
  lemma PackTiles(t: seq<int>, n: nat)
    requires |t| <= n
    requires forall k :: 0 <= k < |t| ==> t[k] != 0
    ensures Tiles(Pack(t, n)) == t
    ensures Packed(Pack(t, n))
  {
    TilesAppend(t, Zeros(n - |t|));
    TilesOfZeros(n - |t|);
    TilesOfTiles(t);
  }

  /** A packed lane is its tiles followed by empty cells. */
  lemma {:induction false} PackedIsPack(l: Lane)
    requires Packed(l)
    ensures l == Pack(Tiles(l), |l|)
  {
    if l != [] {
      PackedIsPack(l[1..]);
      if l[0] == 0 {
        assert forall j :: 0 <= j < |l| ==> l[j] == 0;
        TilesOfZeros(|l|);
        assert l == Zeros(|l|);
      }
    }
  }

  /** A compaction pass keeps the tiles in order, leaves the lane packed, and
      changes exactly the lanes that were not packed already. */
  lemma CompactSpec(l: Lane)
    ensures Tiles(Compact(l)) == Tiles(l)
    ensures Packed(Compact(l))
    ensures Compact(l) == l <==> Packed(l)
  {
    PackTiles(Tiles(l), |l|);
    if Packed(l) {
      PackedIsPack(l);
    }
  }

  /** One step of a compaction pass: the next cell `v` of the lane is
      placed at the first empty position ahead of it, `|Tiles(p)|`, which is
      empty (or the cell itself); the pass changes the lane exactly when some
      tile had an empty cell ahead of it. */
  lemma CompactSnoc(p: Lane, v: int)
    ensures |Tiles(p + [v])| == |Tiles(p)| + (if v == 0 then 0 else 1)
    ensures forall j :: |Tiles(p)| <= j < |p| ==> Compact(p)[j] == 0
    ensures Compact(p + [v]) == (Compact(p) + [0])[|Tiles(p)| := v]
    ensures Compact(p + [v]) != p + [v] <==> Compact(p) != p || (v != 0 && |Tiles(p)| < |p|)
  {
    var t := Tiles(p);
    TilesAppend(p, [v]);
    assert Tiles([v]) == if v == 0 then [] else [v];
    var lhs := Compact(p + [v]);
    var rhs := (Compact(p) + [0])[|t| := v];
    assert |lhs| == |rhs|;
    forall j | 0 <= j < |lhs| ensures lhs[j] == rhs[j] {
      if j < |t| {
        assert lhs[j] == t[j];
      }
    }
    assert lhs == rhs;
    if Compact(p) == p && !(v != 0 && |t| < |p|) {
      assert lhs == p + [v];
    }
    if v != 0 && |t| < |p| {
      assert lhs[|p|] == 0;
    }
    if Compact(p) != p {
      var j :| 0 <= j < |p| && Compact(p)[j] != p[j];
      if j != |t| || v == 0 {
        assert lhs[j] == Compact(p)[j];
      } else {
        assert Compact(p)[j] == 0 && p[j] != 0;
        assert |Tiles(p)| < |p|;
      }
    }
  }

  /** A lane during a compaction pass: its first i cells are compacted and
      the rest is untouched. */
  function CompactedTo(l0: Lane, i: nat): (l: Lane)
    requires i <= |l0|
    ensures |l| == |l0|
    ensures forall k :: i <= k < |l0| ==> l[k] == l0[k]
  {
    Compact(l0[..i]) + l0[i..]
  }

  /** Before the compaction loop runs, nothing is compacted; after it has
      passed every cell, the lane is compacted. */
  lemma CompactedStart(l0: Lane)
    ensures CompactLoop(l0, 0, l0, 0, false)
  {
    assert l0[..0] == [];
  }

  lemma CompactedDone(l0: Lane, lane: Lane, e: int, moved: bool)
    requires CompactLoop(l0, |l0|, lane, e, moved)
    ensures lane == Compact(l0) && (moved <==> Compact(l0) != l0)
  {
    assert l0[..|l0|] == l0;
  }

  /** The state of a compaction pass after it has passed the first i cells
      of l0: the lane, the number of empty cells passed, and whether a tile
      has moved. */
  ghost predicate CompactLoop(l0: Lane, i: nat, lane: Lane, emptySpaces: int, moved: bool) {
    i <= |l0| && lane == CompactedTo(l0, i) && emptySpaces == i - |Tiles(l0[..i])| &&
    (moved <==> Compact(l0[..i]) != l0[..i])
  }

  /** A compaction step over an empty cell counts it and changes nothing. */
  lemma CompactSkip(l0: Lane, i: nat, e: int, moved: bool)
    requires i < |l0| && CompactLoop(l0, i, CompactedTo(l0, i), e, moved) && l0[i] == 0
    ensures CompactLoop(l0, i + 1, CompactedTo(l0, i), e + 1, moved)
  {
    assert l0[..i + 1] == l0[..i] + [l0[i]];
    assert l0[i..] == [l0[i]] + l0[i + 1..];
    CompactSnoc(l0[..i], l0[i]);
  }

  /** A compaction step over a tile with no empty cell ahead leaves it. */
  lemma CompactStay(l0: Lane, i: nat, moved: bool)
    requires i < |l0| && CompactLoop(l0, i, CompactedTo(l0, i), 0, moved) && l0[i] != 0
    ensures CompactLoop(l0, i + 1, CompactedTo(l0, i), 0, moved)
  {
    assert l0[..i + 1] == l0[..i] + [l0[i]];
    assert l0[i..] == [l0[i]] + l0[i + 1..];
    CompactSnoc(l0[..i], l0[i]);
  }

  /** A compaction step over a tile with e > 0 empty cells ahead moves it
      back e cells, onto the first of them, and so changes the lane. */
  lemma CompactShift(l0: Lane, i: nat, e: int, moved: bool)
    requires i < |l0| && CompactLoop(l0, i, CompactedTo(l0, i), e, moved) && l0[i] != 0 && e > 0
    ensures CompactedTo(l0, i)[i - e] == 0
    ensures CompactLoop(l0, i + 1, CompactedTo(l0, i)[i := 0][i - e := l0[i]], e, true)
  {
    assert l0[..i + 1] == l0[..i] + [l0[i]];
    assert l0[i..] == [l0[i]] + l0[i + 1..];
    CompactSnoc(l0[..i], l0[i]);
  }

  /** Step i of the merge pass as the loop takes it: when the tiles at i
      and i + 1 are equal, the one at i + 1 is moved onto the one at i,
      doubling it. */
  function ScanStep(l: Lane, i: nat): (l': Lane)
    requires i + 1 < |l|
    ensures |l'| == |l|
  {
    if l[i] != 0 && l[i + 1] != 0 && l[i] == l[i + 1] then l[i + 1 := 0][i := 2 * l[i + 1]] else l
  }

  /** The score step i of the merge pass adds. */
  function ScanStepGain(l: Lane, i: nat): int
    requires i + 1 < |l|
  {
    if l[i] != 0 && l[i + 1] != 0 && l[i] == l[i + 1] then 2 * l[i + 1] else 0
  }

  /** The lane after the first i steps of the merge pass over l0. */
  function ScannedTo(l0: Lane, i: nat): (l: Lane)
    requires i < |l0|
    ensures |l| == |l0|
    decreases i
  {
    if i == 0 then l0 else ScanStep(ScannedTo(l0, i - 1), i - 1)
  }

  /** The score the first i steps of the merge pass over l0 add. */
  function ScannedGain(l0: Lane, i: nat): int
    requires i < |l0|
    decreases i
  {
    if i == 0 then 0 else ScannedGain(l0, i - 1) + ScanStepGain(ScannedTo(l0, i - 1), i - 1)
  }

  /** The input `Scan` still has to process after emitting i cells of l. */
  function ScanRest(l: Lane, i: nat): (t: Lane)
    requires i < |l|
    ensures |t| == |l| - i
    decreases i
  {
    if i == 0 then l
    else if l[0] != 0 && l[1] != 0 && l[0] == l[1] then ScanRest([0] + l[2..], i - 1)
    else ScanRest(l[1..], i - 1)
  }

  /** `Scan` splits after any number of cells into the cells it has emitted
      and `Scan` of the rest. */
  lemma {:induction false} ScanSplit(l: Lane, i: nat)
    requires i < |l|
    ensures Scan(l)[..i] + Scan(ScanRest(l, i)) == Scan(l)
    decreases i
  {
    if i > 0 {
      var m := l[0] != 0 && l[1] != 0 && l[0] == l[1];
      var l' := if m then [0] + l[2..] else l[1..];
      var h := if m then 2 * l[1] else l[0];
      assert Scan(l) == [h] + Scan(l');
      ScanSplit(l', i - 1);
      assert Scan(l)[..i] == [h] + Scan(l')[..i - 1];
    }
  }

  /** The rest after i cells is cell i, possibly emptied by a merge with
      cell i - 1, followed by l's cells beyond i; emitting one more cell
      consumes it as `Scan` does. */
  lemma {:induction false} RestStep(l: Lane, i: nat)
    requires i < |l|
    ensures var t := ScanRest(l, i);
            t[1..] == l[i + 1..] && (t[0] == l[i] || t[0] == 0)
    ensures i + 1 < |l| ==>
            var t := ScanRest(l, i);
            ScanRest(l, i + 1) == if t[0] != 0 && t[1] != 0 && t[0] == t[1] then [0] + t[2..] else t[1..]
    decreases i
  {
    if i > 0 {
      var l' := if l[0] != 0 && l[1] != 0 && l[0] == l[1] then [0] + l[2..] else l[1..];
      RestStep(l', i - 1);
      assert l'[i..] == l[i + 1..];
    }
  }

  /** The loop's first i steps have produced the first i cells of `Scan`,
      followed by the input it still has to process, and their score is
      what `ScanGain` counts for those cells. */
  lemma {:induction false} ScannedClosed(l0: Lane, i: nat)
    requires i < |l0|
    ensures ScannedTo(l0, i) == Scan(l0)[..i] + ScanRest(l0, i)
    ensures ScanGain(l0) == ScannedGain(l0, i) + ScanGain(ScanRest(l0, i))
    decreases i
  {
    if i == 0 {
      assert Scan(l0)[..0] == [];
    } else {
      ScannedClosed(l0, i - 1);
      ClosedStep(l0, i - 1);
    }
  }

  /** One step of the loop keeps it in step with `Scan`. */
  lemma ClosedStep(l0: Lane, k: nat)
    requires k + 1 < |l0|
    requires ScannedTo(l0, k) == Scan(l0)[..k] + ScanRest(l0, k)
    requires ScanGain(l0) == ScannedGain(l0, k) + ScanGain(ScanRest(l0, k))
    ensures ScannedTo(l0, k + 1) == Scan(l0)[..k + 1] + ScanRest(l0, k + 1)
    ensures ScanGain(l0) == ScannedGain(l0, k + 1) + ScanGain(ScanRest(l0, k + 1))
  {
    var t := ScanRest(l0, k);
    var done := Scan(l0)[..k];
    RestStep(l0, k);
    ScanSplit(l0, k);
    PrefixThrough(done, Scan(t));
    if t[0] != 0 && t[1] != 0 && t[0] == t[1] {
      assert Scan(t) == [2 * t[1]] + Scan([0] + t[2..]);
      StepMerges(done, t);
    } else {
      assert Scan(t) == [t[0]] + Scan(t[1..]);
      StepPasses(done, t);
    }
  }

  /** The prefix of `done + u` one cell longer than `done`. */
  lemma PrefixThrough(done: Lane, u: Lane)
    requires |u| > 0
    ensures (done + u)[..|done| + 1] == done + [u[0]]
  {
  }

  /** A merging step on the lane `done + t`, at the first cell of t. */
  lemma StepMerges(done: Lane, t: Lane)
    requires |t| >= 2 && t[0] != 0 && t[1] != 0 && t[0] == t[1]
    ensures ScanStep(done + t, |done|) == (done + [2 * t[1]]) + ([0] + t[2..])
    ensures ScanStepGain(done + t, |done|) == 2 * t[1]
  {
    var k := |done|;
    var lane := done + t;
    assert lane[k] == t[0] && lane[k + 1] == t[1];
    assert lane[k + 1 := 0][k := 2 * t[1]] == (done + [2 * t[1]]) + ([0] + t[2..]);
  }

  /** A step without a merge on the lane `done + t` changes nothing. */
  lemma StepPasses(done: Lane, t: Lane)
    requires |t| >= 2 && !(t[0] != 0 && t[1] != 0 && t[0] == t[1])
    ensures ScanStep(done + t, |done|) == done + t == (done + [t[0]]) + t[1..]
    ensures ScanStepGain(done + t, |done|) == 0
  {
    var k := |done|;
    assert (done + t)[k] == t[0] && (done + t)[k + 1] == t[1];
    assert (done + [t[0]]) + t[1..] == done + t;
  }

  /** The state of a merge pass over l0 that has taken its first i steps:
      the lane and the score earned so far are those of the first i steps,
      and some step has merged exactly when the lane differs from l0. */
  ghost predicate ScanLoop(l0: Lane, i: nat, lane: Lane, gain: int, merged: bool) {
    i < |l0| && lane == ScannedTo(l0, i) && gain == ScannedGain(l0, i) && (merged <==> ScannedTo(l0, i) != l0)
  }

  /** The merge pass starts with nothing done. */
  lemma ScanStart(l0: Lane)
    requires |l0| > 0
    ensures ScanLoop(l0, 0, l0, 0, false)
  {
  }

  /** Once the merge pass reaches the last cell it has produced the pass's
      result and gain, and it has merged exactly when the pass changes the
      lane. */
  lemma ScanDone(l0: Lane, lane: Lane, gain: int, merged: bool)
    requires |l0| > 0 && ScanLoop(l0, |l0| - 1, lane, gain, merged)
    ensures lane == Scan(l0) && gain == ScanGain(l0) && (merged <==> Scan(l0) != l0)
  {
    ScannedClosed(l0, |l0| - 1);
    ScanSplit(l0, |l0| - 1);
  }

  /** Two equal tiles at steps i and i + 1: the leading one doubles, the
      trailing one is emptied, the gain grows by the new value, and the
      lane now differs from l0. */
  lemma ScanMerge(l0: Lane, i: nat, lane: Lane, gain: int, merged: bool)
    requires ScanLoop(l0, i, lane, gain, merged) && i + 1 < |l0|
    requires lane[i] != 0 && lane[i + 1] != 0 && lane[i] == lane[i + 1]
    ensures ScanLoop(l0, i + 1, lane[i + 1 := 0][i := 2 * lane[i + 1]], gain + 2 * lane[i + 1], true)
  {
    ScannedClosed(l0, i);
    RestStep(l0, i);
    assert lane[i] == ScanRest(l0, i)[0];
    assert lane[i] == l0[i];
    assert ScannedTo(l0, i + 1)[i] != l0[i];
  }

  /** No merge at step i: the pass moves on and the lane stays. */
  lemma ScanPass(l0: Lane, i: nat, lane: Lane, gain: int, merged: bool)
    requires ScanLoop(l0, i, lane, gain, merged) && i + 1 < |l0|
    requires !(lane[i] != 0 && lane[i + 1] != 0 && lane[i] == lane[i + 1])
    ensures ScanLoop(l0, i + 1, lane, gain, merged)
  {
  }

  // ---------------------------------------------------------------------
  // The merge pass on a packed lane is the greedy merge

  lemma ScanLeadingEmpty(l: Lane)
    ensures Scan([0] + l) == [0] + Scan(l)
    ensures ScanGain([0] + l) == ScanGain(l)
  {
    if l != [] {
      assert ([0] + l)[1..] == l;
    }
  }

  lemma {:induction false} ScanOfZeros(n: nat)
    ensures Scan(Zeros(n)) == Zeros(n)
    ensures ScanGain(Zeros(n)) == 0
  {
    if n >= 2 {
      assert Zeros(n)[1..] == Zeros(n - 1);
      ScanOfZeros(n - 1);
    }
  }

  /** On a packed lane the merge pass performs the greedy merge and earns its
      score; the empty cells it opens are the only other difference. */
  lemma {:induction false} ScanOfPacked(t: seq<int>, m: nat)
    requires forall k :: 0 <= k < |t| ==> t[k] != 0
    ensures Tiles(Scan(t + Zeros(m))) == Merge(t)
    ensures ScanGain(t + Zeros(m)) == MergeGain(t)
  {
    var l := t + Zeros(m);
    if t == [] {
      assert l == Zeros(m);
      ScanOfZeros(m);
      TilesOfZeros(m);
    } else if |t| >= 2 && t[0] == t[1] {
      var rest := t[2..] + Zeros(m);
      assert l[2..] == rest;
      ScanLeadingEmpty(rest);
      ScanOfPacked(t[2..], m);
      calc {
        Tiles(Scan(l));
        Tiles([2 * t[0]] + ([0] + Scan(rest)));
        { TilesAppend([2 * t[0]], [0] + Scan(rest)); TilesAppend([0], Scan(rest)); }
        [2 * t[0]] + Tiles(Scan(rest));
      }
    } else {
      var rest := t[1..] + Zeros(m);
      assert l[1..] == rest;
      assert |l| >= 2 ==> l[1] == 0 || l[1] != t[0];
      ScanOfPacked(t[1..], m);
      if |l| >= 2 {
        TilesAppend([t[0]], Scan(rest));
      } else {
        assert rest == [];
      }
    }
  }

  /** Without a merge the merge pass leaves a packed lane as it is. */
  lemma {:induction false} ScanNoMerge(t: seq<int>, m: nat)
    requires forall k :: 0 <= k < |t| ==> t[k] != 0
    requires MergeCount(t) == 0
    ensures Scan(t + Zeros(m)) == t + Zeros(m)
  {
    var l := t + Zeros(m);
    if t == [] {
      assert l == Zeros(m);
      ScanOfZeros(m);
    } else {
      var rest := t[1..] + Zeros(m);
      assert l[1..] == rest;
      assert |l| >= 2 ==> l[1] == 0 || l[1] != t[0];
      ScanNoMerge(t[1..], m);
    }
  }

  /** The three passes of `tilt` (compact, merge, compact) slide the lane. */
  lemma TiltPasses(l: Lane)
    ensures Compact(Scan(Compact(l))) == Slide(l)
  {
    var t := Tiles(l);
    ScanOfPacked(t, |l| - |t|);
  }

  // ---------------------------------------------------------------------
  // Conservation

  lemma {:induction false} SumAppend(a: seq<int>, b: seq<int>)
    ensures Sum(a + b) == Sum(a) + Sum(b)
  {
    if a == [] {
      assert a + b == b;
    } else {
      assert (a + b)[1..] == a[1..] + b;
      SumAppend(a[1..], b);
    }
  }

  /** Merging keeps the total value of the tiles. */
  lemma {:induction false} MergeSum(t: seq<int>)
    ensures Sum(Merge(t)) == Sum(t)
  {
    if |t| >= 2 && t[0] == t[1] {
      MergeSum(t[2..]);
      assert t == [t[0]] + ([t[1]] + t[2..]);
      SumAppend([t[0]], [t[1]] + t[2..]);
      SumAppend([t[1]], t[2..]);
      SumAppend([2 * t[0]], Merge(t[2..]));
    } else if t != [] {
      MergeSum(t[1..]);
      SumAppend([t[0]], Merge(t[1..]));
    }
  }

  /** Every merge removes exactly one tile. */
  lemma {:induction false} MergeLength(t: seq<int>)
    ensures |Merge(t)| + MergeCount(t) == |t|
  {
    if |t| >= 2 && t[0] == t[1] {
      MergeLength(t[2..]);
    } else if t != [] {
      MergeLength(t[1..]);
    }
  }

  /** Without a merge there is nothing to score and nothing changes. */
  lemma {:induction false} NoMergeNoGain(t: seq<int>)
    requires MergeCount(t) == 0
    ensures MergeGain(t) == 0
    ensures Merge(t) == t
  {
    if t != [] {
      NoMergeNoGain(t[1..]);
    }
  }

  lemma {:induction false} SumOfZeros(n: nat)
    ensures Sum(Zeros(n)) == 0
  {
    if n > 0 {
      assert Zeros(n)[1..] == Zeros(n - 1);
      SumOfZeros(n - 1);
    }
  }

  lemma {:induction false} TilesSum(l: Lane)
    ensures Sum(Tiles(l)) == Sum(l)
  {
    if l != [] {
      TilesSum(l[1..]);
      if l[0] != 0 {
        SumAppend([l[0]], Tiles(l[1..]));
      }
    }
  }

  /** A tilt keeps the total value of the lane's tiles, and removes one tile
      per merge. */
  lemma SlideConserves(l: Lane)
    ensures Sum(Slide(l)) == Sum(l)
    ensures |Tiles(Slide(l))| + MergeCount(Tiles(l)) == |Tiles(l)|
  {
    var t := Tiles(l);
    var m := Merge(t);
    MergeSum(t);
    TilesSum(l);
    MergeLength(t);
    SumAppend(m, Zeros(|l| - |m|));
    SumOfZeros(|l| - |m|);
    MergeNonEmpty(t);
    PackTiles(m, |l|);
  }

  /** Merged values of tiles are tiles again. */
  lemma {:induction false} MergeNonEmpty(t: seq<int>)
    requires forall k :: 0 <= k < |t| ==> t[k] != 0
    ensures forall k :: 0 <= k < |Merge(t)| ==> Merge(t)[k] != 0
  {
    if |t| >= 2 && t[0] == t[1] {
      MergeNonEmpty(t[2..]);
    } else if t != [] {
      MergeNonEmpty(t[1..]);
    }
  }

  // ---------------------------------------------------------------------
  // When does a tilt change a lane

  /** Some pass of `tilt` changes the lane exactly when the whole tilt does;
      a tilt that leaves the lane alone scores nothing. */
  lemma SlideChanged(l: Lane)
    ensures (Compact(l) != l || Scan(Compact(l)) != Compact(l)
             || Compact(Scan(Compact(l))) != Scan(Compact(l)))
            <==> Slide(l) != l
    ensures Slide(l) == l ==> MergeGain(Tiles(l)) == 0
  {
    var t := Tiles(l);
    var c := Compact(l);
    TiltPasses(l);
    CompactSpec(l);
    MergeNonEmpty(t);
    PackTiles(Merge(t), |l|);
    MergeLength(t);
    if Slide(l) == l {
      // the packed result keeps every tile, so nothing merged
      assert MergeCount(t) == 0;
      NoMergeNoGain(t);
      ScanNoMerge(t, |l| - |t|);
    }
  }

  // ---------------------------------------------------------------------
  // The documented merge rules determine the greedy merge

  /** Where group `j` starts when tiles are split into consecutive groups of
      the given sizes. */
  function Start(sizes: seq<int>, j: nat): int
    requires j <= |sizes|
  {
    if j == 0 then 0 else sizes[0] + Start(sizes[1..], j - 1)
  }

  /** `m` results from `t` by the rules of the tilt documentation: the tiles,
      leading first, split into consecutive groups of one or two (so a tile
      takes part in at most one merge); a group of two is a pair of equal
      tiles and becomes one tile of twice the value; a tile left alone is not
      followed by a tile of the same value (so of three equal tiles the
      leading two merge). */
  ghost predicate FollowsRules(t: seq<int>, sizes: seq<int>, m: seq<int>) {
    |sizes| == |m| && Start(sizes, |sizes|) == |t| &&
    forall j :: 0 <= j < |sizes| ==>
      (sizes[j] == 1 || sizes[j] == 2) &&
      0 <= Start(sizes, j) && Start(sizes, j) + sizes[j] <= |t| &&
      (sizes[j] == 2 ==> t[Start(sizes, j)] == t[Start(sizes, j) + 1] && m[j] == 2 * t[Start(sizes, j)]) &&
      (sizes[j] == 1 ==> m[j] == t[Start(sizes, j)] &&
                         (Start(sizes, j) + 1 == |t| || t[Start(sizes, j)] != t[Start(sizes, j) + 1]))
  }

  /** The group sizes of the greedy merge. */
  function MergeSizes(t: seq<int>): seq<int> {
    if |t| >= 2 && t[0] == t[1] then [2] + MergeSizes(t[2..])
    else if t == [] then []
    else [1] + MergeSizes(t[1..])
  }

  /** The total value of the tiles produced by groups of two. */
  function PairTotal(sizes: seq<int>, m: seq<int>): int
    requires |sizes| == |m|
  {
    if sizes == [] then 0
    else (if sizes[0] == 2 then m[0] else 0) + PairTotal(sizes[1..], m[1..])
  }

  /** Peeling the first group off a grouping. */
  lemma RulesTail(t: seq<int>, sizes: seq<int>, m: seq<int>)
    requires |sizes| == |m| && sizes != []
    requires 0 <= sizes[0] <= |t|
    ensures FollowsRules(t, sizes, m) ==> FollowsRules(t[sizes[0]..], sizes[1..], m[1..])
    ensures FollowsRules(t[sizes[0]..], sizes[1..], m[1..]) &&
            (sizes[0] == 1 || sizes[0] == 2) && sizes[0] <= |t| &&
            (sizes[0] == 2 ==> t[0] == t[1] && m[0] == 2 * t[0]) &&
            (sizes[0] == 1 ==> m[0] == t[0] && (1 == |t| || t[0] != t[1]))
            ==> FollowsRules(t, sizes, m)
  {
    var k := sizes[0];
    var t', s', m' := t[k..], sizes[1..], m[1..];
    assert forall j :: 0 <= j < |s'| ==> Start(sizes, j + 1) == k + Start(s', j);
    if FollowsRules(t, sizes, m) {
      forall j | 0 <= j < |s'|
        ensures (s'[j] == 1 || s'[j] == 2) &&
          0 <= Start(s', j) && Start(s', j) + s'[j] <= |t'| &&
          (s'[j] == 2 ==> t'[Start(s', j)] == t'[Start(s', j) + 1] && m'[j] == 2 * t'[Start(s', j)]) &&
          (s'[j] == 1 ==> m'[j] == t'[Start(s', j)] &&
                          (Start(s', j) + 1 == |t'| || t'[Start(s', j)] != t'[Start(s', j) + 1]))
      {
        assert sizes[j + 1] == s'[j] && m[j + 1] == m'[j];
        StartNonNeg(s', j);
      }
    }
    if FollowsRules(t', s', m') && (k == 1 || k == 2) && k <= |t| &&
       (k == 2 ==> t[0] == t[1] && m[0] == 2 * t[0]) &&
       (k == 1 ==> m[0] == t[0] && (1 == |t| || t[0] != t[1])) {
      forall j | 0 <= j < |sizes|
        ensures (sizes[j] == 1 || sizes[j] == 2) &&
          0 <= Start(sizes, j) && Start(sizes, j) + sizes[j] <= |t| &&
          (sizes[j] == 2 ==> t[Start(sizes, j)] == t[Start(sizes, j) + 1] && m[j] == 2 * t[Start(sizes, j)]) &&
          (sizes[j] == 1 ==> m[j] == t[Start(sizes, j)] &&
                             (Start(sizes, j) + 1 == |t| || t[Start(sizes, j)] != t[Start(sizes, j) + 1]))
      {
        if j > 0 {
          assert sizes[j] == s'[j - 1] && m[j] == m'[j - 1];
        }
      }
    }
  }

  lemma {:induction false} StartNonNeg(sizes: seq<int>, j: nat)
    requires j <= |sizes|
    requires forall i :: 0 <= i < j ==> sizes[i] == 1 || sizes[i] == 2
    ensures Start(sizes, j) >= 0
  {
    if j > 0 {
      StartNonNeg(sizes[1..], j - 1);
    }
  }

  /** The greedy merge follows the documented rules, its merged tiles carry
      exactly the score it earns, and it makes one group of two per merge. */
  lemma {:induction false} MergeFollowsRules(t: seq<int>)
    ensures FollowsRules(t, MergeSizes(t), Merge(t))
    ensures MergeGain(t) == PairTotal(MergeSizes(t), Merge(t))
  {
    var sizes, m := MergeSizes(t), Merge(t);
    if |t| >= 2 && t[0] == t[1] {
      MergeFollowsRules(t[2..]);
      assert sizes[1..] == MergeSizes(t[2..]) && m[1..] == Merge(t[2..]);
      RulesTail(t, sizes, m);
    } else if t != [] {
      MergeFollowsRules(t[1..]);
      assert sizes[1..] == MergeSizes(t[1..]) && m[1..] == Merge(t[1..]);
      RulesTail(t, sizes, m);
    }
  }

  /** The documented rules leave no choice: whatever follows them is the
      greedy merge. */
  lemma {:induction false} RulesDetermineMerge(t: seq<int>, sizes: seq<int>, m: seq<int>)
    requires FollowsRules(t, sizes, m)
    ensures sizes == MergeSizes(t) && m == Merge(t)
  {
    if sizes == [] {
      assert t == [];
    } else {
      assert Start(sizes, 0) == 0;
      var k := sizes[0];
      RulesTail(t, sizes, m);
      RulesDetermineMerge(t[k..], sizes[1..], m[1..]);
      assert sizes == [k] + sizes[1..] && m == [m[0]] + m[1..];
    }
  }

  /** Three equal tiles, leading first, become twice the value followed by the
      value: the leading two merge and the trailing one does not. */
  lemma ThreeEqual(v: int, rest: seq<int>)
    requires rest == [] || rest[0] != v
    ensures Merge([v, v, v] + rest) == [2 * v, v] + Merge(rest)
  {
    assert ([v, v, v] + rest)[2..] == [v] + rest;
    assert ([v] + rest)[1..] == rest;
  }
}
