/** The iterations x history matrix of one metric (Experiments/analyze.py,
    pivot_metric), and the sums and means taken over it. */
module Grids {
  import opened Base
  import opened Ordering
  import opened Tables

  /** A pivoted matrix: the iterations axis (row labels), the history axis
      (column labels) and one optional cell per pair; a missing cell is NaN. */
  datatype Grid = Grid(iters: seq<nat>, history: seq<nat>, cells: seq<seq<Option<real>>>)
  {
    predicate Valid()
    {
      |cells| == |iters| && forall a :: 0 <= a < |cells| ==> |cells[a]| == |history|
    }
  }

  // ------------------------------------------------------- sums and means

  function Sum(xs: seq<real>): real
  {
    if xs == [] then 0.0 else Sum(xs[..|xs| - 1]) + xs[|xs| - 1]
  }

  /** The arithmetic mean, missing for an empty sequence (pandas' mean of no value is NaN). */
  function Mean(xs: seq<real>): (r: Option<real>)
    ensures r.Some? <==> xs != []
  {
    if xs == [] then None else Some(Sum(xs) / |xs| as real)
  }

  /** The mean times the count of values is their sum. */
  lemma MeanTimesCount(xs: seq<real>)
    requires xs != []
    ensures Mean(xs).value * |xs| as real == Sum(xs)
  {
  }

  /** The present values, in order: what a NaN-skipping reduction sees. */
  function Somes(xs: seq<Option<real>>): seq<real>
  {
    if xs == [] then [] else Somes(xs[..|xs| - 1]) + (if xs[|xs| - 1].Some? then [xs[|xs| - 1].value] else [])
  }

  lemma {:induction false} SumAppend(xs: seq<real>, ys: seq<real>)
    ensures Sum(xs + ys) == Sum(xs) + Sum(ys)
    decreases |ys|
  {
    if ys != [] {
      var init := ys[..|ys| - 1];
      assert (xs + ys)[..|xs + ys| - 1] == xs + init;
      SumAppend(xs, init);
    } else {
      assert xs + ys == xs;
    }
  }

  lemma {:induction false} SomesAppend(xs: seq<Option<real>>, ys: seq<Option<real>>)
    ensures Somes(xs + ys) == Somes(xs) + Somes(ys)
    decreases |ys|
  {
    if ys != [] {
      var init := ys[..|ys| - 1];
      assert (xs + ys)[..|xs + ys| - 1] == xs + init;
      SomesAppend(xs, init);
    } else {
      assert xs + ys == xs;
    }
  }

  /** Every element less c. */
  function Shift(xs: seq<real>, c: real): (r: seq<real>)
    ensures |r| == |xs| && forall k :: 0 <= k < |xs| ==> r[k] == xs[k] - c
  {
    seq(|xs|, k requires 0 <= k < |xs| => xs[k] - c)
  }

  /** Subtracting c from each of n numbers takes n * c off their sum. */
  lemma {:induction false} SumShift(xs: seq<real>, c: real)
    ensures Sum(Shift(xs, c)) == Sum(xs) - |xs| as real * c
  {
    if xs != [] {
      var init := xs[..|xs| - 1];
      SumShift(init, c);
      assert Shift(xs, c)[..|xs| - 1] == Shift(init, c);
    }
  }

  lemma {:induction false} ProductAsReal(a: nat, b: nat)
    ensures (a * b) as real == a as real * b as real
  {
    if a > 0 {
      ProductAsReal(a - 1, b);
      assert a * b == (a - 1) * b + b;
    }
  }

  /** The arithmetic of centring: if s is the means' sum less len * mu, n
      times the means' sum is total, and so is mu * len * n, then s is 0. */
  lemma CenteredArith(s: real, sumMeans: real, len: real, count: real, mu: real, n: real, total: real)
    requires s == sumMeans - len * mu && len == count
    requires sumMeans * n == total && mu * (count * n) == total && n > 0.0
    ensures s == 0.0
  {
    assert s * n == sumMeans * n - mu * (count * n);
  }

  /** Effects that are means less mu, with every mean present. */
  lemma EffectsAreShifted(effects: seq<Option<real>>, means: seq<Option<real>>, mu: real)
    requires |effects| == |means|
    requires forall k :: 0 <= k < |means| ==> means[k].Some? && effects[k] == Some(means[k].value - mu)
    ensures |Somes(means)| == |means| && Somes(effects) == Shift(Somes(means), mu)
  {
    SomesFull(means);
    SomesFull(effects);
  }

  /** Shifted values sum to zero: when n times their sum is total and so is
      mu times their count times n, taking mu off each leaves 0. */
  lemma CenteredShift(ms: seq<real>, mu: real, count: real, n: real, total: real)
    requires n > 0.0 && |ms| as real == count && Sum(ms) * n == total && mu * (count * n) == total
    ensures Sum(Shift(ms, mu)) == 0.0
  {
    SumShift(ms, mu);
    CenteredArith(Sum(Shift(ms, mu)), Sum(ms), |ms| as real, count, mu, n, total);
  }

  /** Means less mu sum to zero: when every mean is present, n times each is
      the matching sum, the sums add up to total and mu times count * n is total too. */
  lemma CenteredMeans(means: seq<Option<real>>, sums: seq<real>, mu: real, count: real, n: real, total: real)
    requires |means| == |sums| && |means| as real == count && n > 0.0
    requires forall k :: 0 <= k < |means| ==> means[k].Some? && means[k].value * n == sums[k]
    requires Sum(sums) == total && mu * (count * n) == total
    ensures |Somes(means)| == |means| && Sum(Shift(Somes(means), mu)) == 0.0
  {
    SomesScale(means, sums, n);
    CenteredShift(Somes(means), mu, count, n, total);
  }

  /** The total as mu times a count of m * n values, with the count cast to real factor by factor. */
  lemma ScaledTotal(mu: real, m: nat, n: nat, total: real)
    requires mu * (m * n) as real == total
    ensures mu * (m as real * n as real) == total && mu * (n as real * m as real) == total
  {
    ProductAsReal(m, n);
  }

  /** Values summing to 0 have mean 0. */
  lemma MeanZero(xs: seq<real>)
    requires xs != [] && Sum(xs) == 0.0
    ensures Mean(xs) == Some(0.0)
  {
  }

  /** Somes keeps exactly the present cells. */
  lemma {:induction false} SomesMembers(xs: seq<Option<real>>)
    ensures forall v :: v in Somes(xs) <==> Some(v) in xs
    ensures |Somes(xs)| <= |xs|
  {
    if xs != [] {
      var init := xs[..|xs| - 1];
      SomesMembers(init);
      assert xs == init + [xs[|xs| - 1]];
    }
  }

  /** Somes is empty exactly when every cell is missing. */
  lemma {:induction false} SomesEmpty(xs: seq<Option<real>>)
    ensures Somes(xs) == [] <==> forall k :: 0 <= k < |xs| ==> xs[k].None?
  {
    if xs != [] {
      var init := xs[..|xs| - 1];
      SomesEmpty(init);
      assert forall k :: 0 <= k < |init| ==> init[k] == xs[k];
    }
  }

  /** With no missing cell, Somes reads every cell. */
  lemma {:induction false} SomesFull(xs: seq<Option<real>>)
    requires forall k :: 0 <= k < |xs| ==> xs[k].Some?
    ensures |Somes(xs)| == |xs| && forall k :: 0 <= k < |xs| ==> Somes(xs)[k] == xs[k].value
  {
    if xs != [] {
      SomesFull(xs[..|xs| - 1]);
    }
  }

  /** When every value is present and n times each is the matching sum,
      n times their total is the total of the sums. */
  lemma {:induction false} SomesScale(means: seq<Option<real>>, sums: seq<real>, n: real)
    requires |means| == |sums|
    requires forall k :: 0 <= k < |means| ==> means[k].Some? && means[k].value * n == sums[k]
    ensures |Somes(means)| == |means| && Sum(Somes(means)) * n == Sum(sums)
  {
    if means != [] {
      var i := |means| - 1;
      SomesScale(means[..i], sums[..i], n);
      assert sums[..i] == sums[..|sums| - 1];
      SumAppend(Somes(means[..i]), [means[i].value]);
    }
  }

  /** Column b of the matrix, top to bottom. */
  function Column(g: Grid, b: nat): (col: seq<Option<real>>)
    requires g.Valid() && b < |g.history|
    ensures |col| == |g.iters| && forall a :: 0 <= a < |g.iters| ==> col[a] == g.cells[a][b]
  {
    seq(|g.iters|, a requires 0 <= a < |g.iters| => g.cells[a][b])
  }

  /** The NaN-skipping mean of row a (pandas' mean(axis=1)). */
  function RowMean(g: Grid, a: nat): Option<real>
    requires g.Valid() && a < |g.iters|
  {
    Mean(Somes(g.cells[a]))
  }

  /** The NaN-skipping mean of column b (pandas' mean(axis=0)). */
  function ColMean(g: Grid, b: nat): Option<real>
    requires g.Valid() && b < |g.history|
  {
    Mean(Somes(Column(g, b)))
  }

  /** A row mean is present exactly when the row has a filled cell. */
  lemma RowMeanPresent(g: Grid, a: nat)
    requires g.Valid() && a < |g.iters|
    ensures RowMean(g, a).Some? <==> exists b :: 0 <= b < |g.history| && g.cells[a][b].Some?
  {
    SomesEmpty(g.cells[a]);
  }

  /** A column mean is present exactly when the column has a filled cell. */
  lemma ColMeanPresent(g: Grid, b: nat)
    requires g.Valid() && b < |g.history|
    ensures ColMean(g, b).Some? <==> exists a :: 0 <= a < |g.iters| && g.cells[a][b].Some?
  {
    var col := Column(g, b);
    SomesEmpty(col);
    if Somes(col) != [] {
      var a :| 0 <= a < |col| && col[a].Some?;
      assert g.cells[a][b].Some?;
    }
  }

  // ---------------------------------------------------------------- pivot

  /** The columns of the long-form table that are not metric values. */
  const TagColumns: set<string> := {"name", "exp_label", "iters", "history"}

  const NatOrder: (nat, nat) -> bool := (a: nat, b: nat) => a < b

  lemma NatOrderIsStrictTotalOrder()
    ensures StrictTotalOrder(NatOrder)
  {
  }

  /** The rows whose value for the metric is present. */
  function PresentRows(rows: seq<TaggedRow>, metric: string): seq<TaggedRow>
  {
    if rows == [] then []
    else (if metric in rows[0].values then [rows[0]] else []) + PresentRows(rows[1..], metric)
  }

  function ItersOf(rows: seq<TaggedRow>): (r: seq<nat>)
    ensures |r| == |rows| && forall k :: 0 <= k < |rows| ==> r[k] == rows[k].iters
  {
    seq(|rows|, k requires 0 <= k < |rows| => rows[k].iters)
  }

  function HistoryOf(rows: seq<TaggedRow>): (r: seq<nat>)
    ensures |r| == |rows| && forall k :: 0 <= k < |rows| ==> r[k] == rows[k].history
  {
    seq(|rows|, k requires 0 <= k < |rows| => rows[k].history)
  }

  /** The metric's present values in the (i, h) group, in row order. */
  function Group(rows: seq<TaggedRow>, metric: string, i: nat, h: nat): seq<real>
  {
    if rows == [] then []
    else (if rows[0].iters == i && rows[0].history == h && metric in rows[0].values
          then [rows[0].values[metric]] else []) + Group(rows[1..], metric, i, h)
  }

  /** What pivot_metric returns or raises: the mean of each (iters, history)
      group, with both axes sorted, and only the axis values that have at
      least one present value (the pivot drops all-NaN rows and columns). */
  function Pivot(t: Table, metric: string): (r: Result<Grid>)
    requires metric !in TagColumns
    ensures r.Err? <==> metric !in t.columns
    ensures r.Err? ==> r.error == MetricNotFound(metric)
    ensures r.Ok? ==> r.value.Valid()
  {
    if metric !in t.columns then Err(MetricNotFound(metric))
    else
      var present := PresentRows(t.rows, metric);
      var iters := SortedSet(ItersOf(present), NatOrder);
      var history := SortedSet(HistoryOf(present), NatOrder);
      Ok(Grid(iters, history,
        seq(|iters|, a requires 0 <= a < |iters| =>
          seq(|history|, b requires 0 <= b < |history| => Mean(Group(t.rows, metric, iters[a], history[b]))))))
  }

  lemma {:induction false} PresentRowsSpec(rows: seq<TaggedRow>, metric: string)
    ensures forall r :: r in PresentRows(rows, metric) <==> r in rows && metric in r.values
  {
    if rows != [] {
      PresentRowsSpec(rows[1..], metric);
      assert rows == [rows[0]] + rows[1..];
    }
  }

  /** Row r is in the (i, h) group and has the metric present. */
  predicate InGroup(r: TaggedRow, metric: string, i: nat, h: nat)
  {
    r.iters == i && r.history == h && metric in r.values
  }

  /** idx lists, in increasing order, exactly the positions of the rows in
      the (i, h) group with the metric present, and vs holds their values in
      that order: one value per such row, repeated values included. */
  ghost predicate ListsGroup(rows: seq<TaggedRow>, metric: string, i: nat, h: nat, idx: seq<nat>, vs: seq<real>)
  {
    PicksGroup(rows, metric, i, h, idx, vs) && Increasing(idx) && CoversGroup(rows, metric, i, h, idx)
  }

  /** Entry j of vs is the metric value of row idx[j], a row of the group. */
  ghost predicate PicksGroup(rows: seq<TaggedRow>, metric: string, i: nat, h: nat, idx: seq<nat>, vs: seq<real>)
  {
    && |idx| == |vs|
    && forall j :: 0 <= j < |idx| ==>
         idx[j] < |rows| && InGroup(rows[idx[j]], metric, i, h) && vs[j] == rows[idx[j]].values[metric]
  }

  ghost predicate Increasing(idx: seq<nat>)
  {
    forall j, j' :: 0 <= j < j' < |idx| ==> idx[j] < idx[j']
  }

  /** Every row of the group is listed. */
  ghost predicate CoversGroup(rows: seq<TaggedRow>, metric: string, i: nat, h: nat, idx: seq<nat>)
  {
    forall k :: 0 <= k < |rows| && InGroup(rows[k], metric, i, h) ==> k in idx
  }

  /** The positions of a tail listing, one further on. */
  function Shifted(tail: seq<nat>): (r: seq<nat>)
    ensures |r| == |tail| && forall j :: 0 <= j < |tail| ==> r[j] == tail[j] + 1
  {
    seq(|tail|, j requires 0 <= j < |tail| => tail[j] + 1)
  }

  /** Position 0 when the first row is in the group. */
  function HeadIndex(r: TaggedRow, metric: string, i: nat, h: nat): seq<nat>
  {
    if InGroup(r, metric, i, h) then [0] else []
  }

  lemma PicksCons(rows: seq<TaggedRow>, metric: string, i: nat, h: nat, tail: seq<nat>)
    requires rows != [] && PicksGroup(rows[1..], metric, i, h, tail, Group(rows[1..], metric, i, h))
    ensures PicksGroup(rows, metric, i, h, HeadIndex(rows[0], metric, i, h) + Shifted(tail), Group(rows, metric, i, h))
  {
    var idx := HeadIndex(rows[0], metric, i, h) + Shifted(tail);
    var vs := Group(rows, metric, i, h);
    var n := |HeadIndex(rows[0], metric, i, h)|;
    assert vs == (if InGroup(rows[0], metric, i, h) then [rows[0].values[metric]] else []) + Group(rows[1..], metric, i, h);
    forall j | n <= j < |idx|
      ensures idx[j] < |rows| && InGroup(rows[idx[j]], metric, i, h) && vs[j] == rows[idx[j]].values[metric]
    {
      assert idx[j] == tail[j - n] + 1 && rows[idx[j]] == rows[1..][tail[j - n]];
    }
  }

  lemma IncreasingCons(r: TaggedRow, metric: string, i: nat, h: nat, tail: seq<nat>)
    requires Increasing(tail)
    ensures Increasing(HeadIndex(r, metric, i, h) + Shifted(tail))
  {
  }

  lemma CoversCons(rows: seq<TaggedRow>, metric: string, i: nat, h: nat, tail: seq<nat>)
    requires rows != [] && CoversGroup(rows[1..], metric, i, h, tail)
    ensures CoversGroup(rows, metric, i, h, HeadIndex(rows[0], metric, i, h) + Shifted(tail))
  {
    var head := HeadIndex(rows[0], metric, i, h);
    var idx := head + Shifted(tail);
    forall k | 0 <= k < |rows| && InGroup(rows[k], metric, i, h)
      ensures k in idx
    {
      if k > 0 {
        assert rows[1..][k - 1] == rows[k];
        var j :| 0 <= j < |tail| && tail[j] == k - 1;
        assert idx[|head| + j] == k;
      }
    }
  }

  /** The positions of the group's rows, found along Group's own recursion. */
  lemma {:induction false} GroupListed(rows: seq<TaggedRow>, metric: string, i: nat, h: nat) returns (idx: seq<nat>)
    ensures ListsGroup(rows, metric, i, h, idx, Group(rows, metric, i, h))
  {
    if rows == [] {
      idx := [];
    } else {
      var tail := GroupListed(rows[1..], metric, i, h);
      PicksCons(rows, metric, i, h, tail);
      IncreasingCons(rows[0], metric, i, h, tail);
      CoversCons(rows, metric, i, h, tail);
      idx := HeadIndex(rows[0], metric, i, h) + Shifted(tail);
    }
  }

  /** The group holds one value per row of the group with the metric
      present: which values, whether there is any, and, through an
      increasing map onto the rows, how many times each value occurs and in
      what order. */
  lemma GroupSpec(rows: seq<TaggedRow>, metric: string, i: nat, h: nat)
    ensures forall v :: v in Group(rows, metric, i, h) <==>
      exists k :: 0 <= k < |rows| && rows[k].iters == i && rows[k].history == h && metric in rows[k].values && rows[k].values[metric] == v
    ensures Group(rows, metric, i, h) == [] <==>
      forall k :: 0 <= k < |rows| ==> !(rows[k].iters == i && rows[k].history == h && metric in rows[k].values)
    ensures exists idx :: ListsGroup(rows, metric, i, h, idx, Group(rows, metric, i, h))
  {
    var vs := Group(rows, metric, i, h);
    var idx := GroupListed(rows, metric, i, h);
    forall v | v in vs
      ensures exists k :: 0 <= k < |rows| && rows[k].iters == i && rows[k].history == h && metric in rows[k].values && rows[k].values[metric] == v
    {
      var j :| 0 <= j < |vs| && vs[j] == v;
      assert InGroup(rows[idx[j]], metric, i, h);
    }
    forall k | 0 <= k < |rows| && InGroup(rows[k], metric, i, h)
      ensures rows[k].values[metric] in vs
    {
      var j :| 0 <= j < |idx| && idx[j] == k;
    }
  }

  /** An iterations value occurs among the present rows exactly when some row with it has the metric. */
  lemma ItersOfPresent(rows: seq<TaggedRow>, metric: string)
    ensures forall i :: i in ItersOf(PresentRows(rows, metric)) <==>
      exists k :: 0 <= k < |rows| && rows[k].iters == i && metric in rows[k].values
  {
    forall i ensures i in ItersOf(PresentRows(rows, metric)) <==> exists k :: 0 <= k < |rows| && rows[k].iters == i && metric in rows[k].values {
      ItersOfPresentAt(rows, metric, i);
    }
  }

  lemma ItersOfPresentAt(rows: seq<TaggedRow>, metric: string, i: nat)
    ensures i in ItersOf(PresentRows(rows, metric)) <==> exists k :: 0 <= k < |rows| && rows[k].iters == i && metric in rows[k].values
  {
    var present := PresentRows(rows, metric);
    PresentRowsSpec(rows, metric);
    if i in ItersOf(present) {
      var j :| 0 <= j < |present| && ItersOf(present)[j] == i;
      assert present[j] in present;
    }
    if exists k :: 0 <= k < |rows| && rows[k].iters == i && metric in rows[k].values {
      var k :| 0 <= k < |rows| && rows[k].iters == i && metric in rows[k].values;
      assert rows[k] in present;
      var j :| 0 <= j < |present| && present[j] == rows[k];
      assert ItersOf(present)[j] == i;
    }
  }

  /** A history value occurs among the present rows exactly when some row with it has the metric. */
  lemma HistoryOfPresent(rows: seq<TaggedRow>, metric: string)
    ensures forall h :: h in HistoryOf(PresentRows(rows, metric)) <==>
      exists k :: 0 <= k < |rows| && rows[k].history == h && metric in rows[k].values
  {
    forall h ensures h in HistoryOf(PresentRows(rows, metric)) <==> exists k :: 0 <= k < |rows| && rows[k].history == h && metric in rows[k].values {
      HistoryOfPresentAt(rows, metric, h);
    }
  }

  lemma HistoryOfPresentAt(rows: seq<TaggedRow>, metric: string, h: nat)
    ensures h in HistoryOf(PresentRows(rows, metric)) <==> exists k :: 0 <= k < |rows| && rows[k].history == h && metric in rows[k].values
  {
    var present := PresentRows(rows, metric);
    PresentRowsSpec(rows, metric);
    if h in HistoryOf(present) {
      var j :| 0 <= j < |present| && HistoryOf(present)[j] == h;
      assert present[j] in present;
    }
    if exists k :: 0 <= k < |rows| && rows[k].history == h && metric in rows[k].values {
      var k :| 0 <= k < |rows| && rows[k].history == h && metric in rows[k].values;
      assert rows[k] in present;
      var j :| 0 <= j < |present| && present[j] == rows[k];
      assert HistoryOf(present)[j] == h;
    }
  }

  /** A group has a value exactly when some row of it has the metric. */
  lemma GroupNonEmpty(rows: seq<TaggedRow>, metric: string, i: nat, h: nat)
    ensures Group(rows, metric, i, h) != [] <==>
      exists k :: 0 <= k < |rows| && rows[k].iters == i && rows[k].history == h && metric in rows[k].values
  {
    GroupSpec(rows, metric, i, h);
  }

  /** The axes: strictly increasing, and a value is on the iterations
      (history) axis exactly when some row with that iterations (history)
      value has the metric present. */
  lemma PivotAxes(t: Table, metric: string)
    requires metric !in TagColumns && Pivot(t, metric).Ok?
    ensures var g := Pivot(t, metric).value;
      && StrictlySorted(g.iters, NatOrder)
      && StrictlySorted(g.history, NatOrder)
      && (forall i :: i in g.iters <==> exists k :: 0 <= k < |t.rows| && t.rows[k].iters == i && metric in t.rows[k].values)
      && (forall h :: h in g.history <==> exists k :: 0 <= k < |t.rows| && t.rows[k].history == h && metric in t.rows[k].values)
  {
    var present := PresentRows(t.rows, metric);
    NatOrderIsStrictTotalOrder();
    SortedSetSpec(ItersOf(present), NatOrder);
    SortedSetSpec(HistoryOf(present), NatOrder);
    ItersOfPresent(t.rows, metric);
    HistoryOfPresent(t.rows, metric);
  }

  /** A cell is filled exactly when some row of its (iters, history) group
      has the metric present, and then it is the mean of the group's values. */
  lemma PivotCell(t: Table, metric: string, a: nat, b: nat)
    requires metric !in TagColumns && Pivot(t, metric).Ok?
    requires a < |Pivot(t, metric).value.iters| && b < |Pivot(t, metric).value.history|
    ensures var g := Pivot(t, metric).value;
      var group := Group(t.rows, metric, g.iters[a], g.history[b]);
      && (g.cells[a][b].Some? <==>
          exists k :: 0 <= k < |t.rows| && t.rows[k].iters == g.iters[a] && t.rows[k].history == g.history[b] && metric in t.rows[k].values)
      && (g.cells[a][b].Some? ==> g.cells[a][b].value * |group| as real == Sum(group))
  {
    var g := Pivot(t, metric).value;
    var group := Group(t.rows, metric, g.iters[a], g.history[b]);
    CellOfPivot(t, metric, a, b);
    GroupNonEmpty(t.rows, metric, g.iters[a], g.history[b]);
    if group != [] {
      MeanTimesCount(group);
    }
  }

  /** Unfolds Pivot at one cell, so that PivotCell's proof stays small. */
  lemma CellOfPivot(t: Table, metric: string, a: nat, b: nat)
    requires metric !in TagColumns && Pivot(t, metric).Ok?
    requires a < |Pivot(t, metric).value.iters| && b < |Pivot(t, metric).value.history|
    ensures var g := Pivot(t, metric).value;
      g.cells[a][b] == Mean(Group(t.rows, metric, g.iters[a], g.history[b]))
  {
  }
}
