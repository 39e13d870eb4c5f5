/**
 * Dynamic time warping between two contours with local cost |a[i] - b[j]|
 * (the Euclidean metric in one dimension) and librosa's default steps:
 * diagonal (1, 1), horizontal (0, 1) and vertical (1, 0), all of weight 1.
 * The distance is the cumulative cost at the last cell divided by
 * max(1, number of steps of the warping path).
 */
module Dtw {
  import opened Results

  function Abs(x: real): real { if x < 0.0 then -x else x }

  function Min3(x: real, y: real, z: real): (r: real)
    ensures r <= x && r <= y && r <= z
    ensures r == x || r == y || r == z
  {
    if x <= y && x <= z then x else if y <= z then y else z
  }

  /** The local cost of matching a[i] with b[j]. */
  function Cost(a: seq<real>, b: seq<real>, i: nat, j: nat): (c: real)
    requires i < |a| && j < |b|
    ensures c >= 0.0 && (c == 0.0 <==> a[i] == b[j])
  {
    Abs(a[i] - b[j])
  }

  /** D[i, j]: the cumulative cost table. The first row and column can only be
      reached along themselves; an inner cell adds its local cost to the best of
      its diagonal, left and upper neighbours. */
  function Acc(a: seq<real>, b: seq<real>, i: nat, j: nat): (r: real)
    requires i < |a| && j < |b|
    decreases i + j
  {
    var c := Cost(a, b, i, j);
    if i == 0 && j == 0 then c
    else if i == 0 then c + Acc(a, b, 0, j - 1)
    else if j == 0 then c + Acc(a, b, i - 1, 0)
    else c + Min3(Acc(a, b, i - 1, j - 1), Acc(a, b, i, j - 1), Acc(a, b, i - 1, j))
  }

  /** dtw_distance(a, b), where `pathLen` is the number of pairs in the warping
      path librosa backtracks. */
  function DtwDistance(a: seq<real>, b: seq<real>, pathLen: nat): (r: Result<real>)
    ensures r.Ok? <==> |a| > 0 && |b| > 0
    ensures r.Ok? ==> r.value >= 0.0
  {
    if |a| == 0 || |b| == 0 then Err(EmptyDtwInput)
    else
      var acc, d := Acc(a, b, |a| - 1, |b| - 1), Divisor(pathLen);
      AccNonNegative(a, b, |a| - 1, |b| - 1);
      assert acc / d >= 0.0;
      Ok(acc / d)
  }

  /** max(1, len(wp)) as the divisor. */
  function Divisor(pathLen: nat): (d: real)
    ensures d >= 1.0 && d >= pathLen as real
    ensures pathLen >= 1 ==> d == pathLen as real
  {
    if pathLen < 1 then 1.0 else pathLen as real
  }

  /** Every cumulative cost is non-negative. */
  lemma {:induction false} AccNonNegative(a: seq<real>, b: seq<real>, i: nat, j: nat)
    requires i < |a| && j < |b|
    ensures Acc(a, b, i, j) >= 0.0
    decreases i + j
  {
    if i == 0 && j > 0 {
      AccNonNegative(a, b, 0, j - 1);
    } else if i > 0 && j == 0 {
      AccNonNegative(a, b, i - 1, 0);
    } else if i > 0 && j > 0 {
      AccNonNegative(a, b, i - 1, j - 1);
      AccNonNegative(a, b, i, j - 1);
      AccNonNegative(a, b, i - 1, j);
    }
  }

  /** Along the diagonal of a sequence against itself the cumulative cost is 0. */
  lemma {:induction false} AccSelfZero(a: seq<real>, i: nat)
    requires i < |a|
    ensures Acc(a, a, i, i) == 0.0
  {
    if i > 0 {
      AccSelfZero(a, i - 1);
      AccNonNegative(a, a, i, i - 1);
      AccNonNegative(a, a, i - 1, i);
    }
  }

  /** Swapping the two sequences transposes the cumulative cost table. */
  lemma AccSymmetric(a: seq<real>, b: seq<real>, i: nat, j: nat)
    requires i < |a| && j < |b|
    ensures Acc(a, b, i, j) == Acc(b, a, j, i)
  {
    AccTransposed(a, b, i, j);
  }

  /** Cell (i, j) of the table for (a, b) equals cell (j, i) of the table for (b, a). */
  ghost predicate Transposed(a: seq<real>, b: seq<real>, i: nat, j: nat)
    requires i < |a| && j < |b|
  {
    Acc(a, b, i, j) == Acc(b, a, j, i)
  }

  lemma {:induction false} AccTransposed(a: seq<real>, b: seq<real>, i: nat, j: nat)
    requires i < |a| && j < |b|
    ensures Transposed(a, b, i, j)
    decreases i + j
  {
    if j > 0 {
      AccTransposed(a, b, i, j - 1);
    }
    if i > 0 {
      AccTransposed(a, b, i - 1, j);
    }
    if i > 0 && j > 0 {
      AccTransposed(a, b, i - 1, j - 1);
    }
    TransposedStep(a, b, i, j);
  }

  /** A cell is transposed once the cells it is computed from are. */
  lemma TransposedStep(a: seq<real>, b: seq<real>, i: nat, j: nat)
    requires i < |a| && j < |b|
    requires j > 0 ==> Transposed(a, b, i, j - 1)
    requires i > 0 ==> Transposed(a, b, i - 1, j)
    requires i > 0 && j > 0 ==> Transposed(a, b, i - 1, j - 1)
    ensures Transposed(a, b, i, j)
  {
    assert Cost(a, b, i, j) == Cost(b, a, j, i);
    if i > 0 && j > 0 {
      var diag, left, up := Acc(a, b, i - 1, j - 1), Acc(a, b, i, j - 1), Acc(a, b, i - 1, j);
      assert Min3(diag, left, up) == Min3(diag, up, left);
    }
  }

  /** A contour is at distance 0 from itself, whatever the path length. */
  lemma DtwDistanceSelf(a: seq<real>, pathLen: nat)
    requires |a| > 0
    ensures DtwDistance(a, a, pathLen) == Ok(0.0)
  {
    AccSelfZero(a, |a| - 1);
  }

  /** The cumulative cost D[n-1, m-1] does not depend on the order of the arguments. */
  lemma DtwCostSymmetric(a: seq<real>, b: seq<real>)
    requires |a| > 0 && |b| > 0
    ensures Acc(a, b, |a| - 1, |b| - 1) == Acc(b, a, |b| - 1, |a| - 1)
  {
    AccSymmetric(a, b, |a| - 1, |b| - 1);
  }

  /** One move of a warping path: diagonal, horizontal or vertical. */
  ghost predicate Step(p: (nat, nat), q: (nat, nat)) {
    || (q.0 == p.0 + 1 && q.1 == p.1 + 1)
    || (q.0 == p.0 && q.1 == p.1 + 1)
    || (q.0 == p.0 + 1 && q.1 == p.1)
  }

  /** A warping path from (0, 0) to (i, j) made of single steps. */
  ghost predicate WarpingPath(path: seq<(nat, nat)>, i: nat, j: nat) {
    && |path| >= 1
    && path[0] == (0, 0)
    && path[|path| - 1] == (i, j)
    && forall k :: 0 <= k < |path| - 1 ==> Step(path[k], path[k + 1])
  }

  /** Every pair of the path indexes both sequences. */
  ghost predicate InTable(path: seq<(nat, nat)>, n: nat, m: nat) {
    forall k :: 0 <= k < |path| ==> path[k].0 < n && path[k].1 < m
  }

  /** The total local cost along a path. */
  ghost function PathCost(a: seq<real>, b: seq<real>, path: seq<(nat, nat)>): real
    requires InTable(path, |a|, |b|)
  {
    if path == [] then 0.0
    else
      var last := path[|path| - 1];
      PathCost(a, b, path[..|path| - 1]) + Cost(a, b, last.0, last.1)
  }

  /** Dropping the last pair of a warping path leaves a warping path to its predecessor. */
  lemma WarpingPathPrefix(path: seq<(nat, nat)>, i: nat, j: nat)
    requires WarpingPath(path, i, j) && |path| >= 2
    ensures WarpingPath(path[..|path| - 1], path[|path| - 2].0, path[|path| - 2].1)
    ensures Step(path[|path| - 2], (i, j))
  {
  }

  /** A warping path to (i, j) stays inside the rectangle up to (i, j) and has
      between max(i, j) + 1 and i + j + 1 pairs; in particular at least one, so
      max(1, len(wp)) is len(wp) for a real warping path. */
  lemma {:induction false} WarpingPathShape(path: seq<(nat, nat)>, i: nat, j: nat)
    requires WarpingPath(path, i, j)
    ensures InTable(path, i + 1, j + 1)
    ensures i + 1 <= |path| && j + 1 <= |path| && |path| <= i + j + 1
    decreases |path|
  {
    if |path| > 1 {
      var pre, p := path[..|path| - 1], path[|path| - 2];
      WarpingPathPrefix(path, i, j);
      WarpingPathShape(pre, p.0, p.1);
    }
  }

  /** No warping path is cheaper than the cumulative cost table says. */
  lemma {:induction false} AccLowerBound(a: seq<real>, b: seq<real>, path: seq<(nat, nat)>, i: nat, j: nat)
    requires i < |a| && j < |b| && WarpingPath(path, i, j)
    ensures InTable(path, |a|, |b|) && Acc(a, b, i, j) <= PathCost(a, b, path)
    decreases |path|
  {
    WarpingPathShape(path, i, j);
    if |path| > 1 {
      var pre, p := path[..|path| - 1], path[|path| - 2];
      WarpingPathPrefix(path, i, j);
      AccLowerBound(a, b, pre, p.0, p.1);
      AccStepBound(a, b, p, i, j);
      assert PathCost(a, b, path) == PathCost(a, b, pre) + Cost(a, b, i, j);
    }
  }

  /** A cell costs at most its local cost plus the cumulative cost of any cell
      one step before it. */
  lemma AccStepBound(a: seq<real>, b: seq<real>, p: (nat, nat), i: nat, j: nat)
    requires i < |a| && j < |b| && Step(p, (i, j))
    ensures Acc(a, b, i, j) <= Cost(a, b, i, j) + Acc(a, b, p.0, p.1)
  {
  }

  /** The predecessor backtracking moves to from (i, j) != (0, 0): the
      cheapest of the diagonal, left and upper neighbours, preferring them in
      that order on ties. */
  function Predecessor(a: seq<real>, b: seq<real>, i: nat, j: nat): (p: (nat, nat))
    requires i < |a| && j < |b| && (i, j) != (0, 0)
    ensures Step(p, (i, j)) && p.0 < |a| && p.1 < |b|
    ensures Acc(a, b, i, j) == Cost(a, b, i, j) + Acc(a, b, p.0, p.1)
  {
    if i == 0 then (0, j - 1)
    else if j == 0 then (i - 1, 0)
    else
      var diag, left, up := Acc(a, b, i - 1, j - 1), Acc(a, b, i, j - 1), Acc(a, b, i - 1, j);
      var best := Min3(diag, left, up);
      if diag == best then (i - 1, j - 1) else if left == best then (i, j - 1) else (i - 1, j)
  }

  /** Backtracking from (i, j) to (0, 0) yields a warping path whose cost is
      exactly the table entry, so with AccLowerBound D[i, j] is the minimum
      cost over all warping paths. */
  ghost function Backtrack(a: seq<real>, b: seq<real>, i: nat, j: nat): (path: seq<(nat, nat)>)
    requires i < |a| && j < |b|
    ensures WarpingPath(path, i, j) && InTable(path, |a|, |b|)
    ensures PathCost(a, b, path) == Acc(a, b, i, j)
    decreases i + j
  {
    if i == 0 && j == 0 then [(0, 0)]
    else
      var p := Predecessor(a, b, i, j);
      var pre := Backtrack(a, b, p.0, p.1);
      var path := pre + [(i, j)];
      assert path[..|path| - 1] == pre;
      path
  }

  /** Cells (p, q) with p < rows, plus the first `cols` cells of row `rows`,
      hold the cumulative cost. */
  ghost predicate Filled(D: array2<real>, a: seq<real>, b: seq<real>, rows: nat, cols: nat)
    reads D
    requires D.Length0 == |a| && D.Length1 == |b|
  {
    && (forall p, q {:trigger D[p, q]} :: 0 <= p < rows && p < |a| && 0 <= q < |b| ==> D[p, q] == Acc(a, b, p, q))
    && (forall q {:trigger D[rows, q]} :: 0 <= q < cols && rows < |a| && q < |b| ==> D[rows, q] == Acc(a, b, rows, q))
  }

  /** The value the cell (i, j) receives from its already filled neighbours. */
  method NextCell(D: array2<real>, a: seq<real>, b: seq<real>, i: nat, j: nat) returns (v: real)
    requires D.Length0 == |a| && D.Length1 == |b| && i < |a| && j < |b|
    requires Filled(D, a, b, i, j)
    ensures v == Acc(a, b, i, j)
  {
    var c := Abs(a[i] - b[j]);
    if i == 0 && j == 0 {
      v := c;
    } else if i == 0 {
      v := c + D[i, j - 1];
    } else if j == 0 {
      v := c + D[i - 1, j];
    } else {
      v := c + Min3(D[i - 1, j - 1], D[i, j - 1], D[i - 1, j]);
    }
  }

  /** Fills row `i` of the table left to right. */
  method FillRow(D: array2<real>, a: seq<real>, b: seq<real>, i: nat)
    requires D.Length0 == |a| && D.Length1 == |b| && i < |a|
    requires Filled(D, a, b, i, 0)
    modifies D
    ensures Filled(D, a, b, i + 1, 0)
  {
    var j := 0;
    while j < |b|
      invariant 0 <= j <= |b|
      invariant Filled(D, a, b, i, j)
    {
      var v := NextCell(D, a, b, i, j);
      label before:
      D[i, j] := v;
      assert forall p, q :: 0 <= p < |a| && 0 <= q < |b| && (p, q) != (i, j) ==> D[p, q] == old@before(D[p, q]);
      j := j + 1;
    }
  }

  /** Fills the (n x m) cumulative cost table cell by cell, row by row. */
  method FillCostTable(a: seq<real>, b: seq<real>) returns (D: array2<real>)
    requires |a| > 0 && |b| > 0
    ensures fresh(D) && D.Length0 == |a| && D.Length1 == |b|
    ensures forall i, j :: 0 <= i < |a| && 0 <= j < |b| ==> D[i, j] == Acc(a, b, i, j)
  {
    D := new real[|a|, |b|];
    var i := 0;
    while i < |a|
      invariant 0 <= i <= |a|
      invariant Filled(D, a, b, i, 0)
    {
      FillRow(D, a, b, i);
      i := i + 1;
    }
  }

  /** dtw_distance: builds the table and reads its last cell. */
  method ComputeDtwDistance(a: seq<real>, b: seq<real>, pathLen: nat) returns (r: Result<real>)
    ensures r == DtwDistance(a, b, pathLen)
  {
    if |a| == 0 || |b| == 0 {
      return Err(EmptyDtwInput);
    }
    var D := FillCostTable(a, b);
    var d := if pathLen < 1 then 1 else pathLen;
    r := Ok(D[|a| - 1, |b| - 1] / d as real);
  }
}
