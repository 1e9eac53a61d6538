/** The two-way additive decomposition M(i,h) = mu + alpha_i + beta_h + gamma_ih
    of the pivoted matrix (Experiments/analyze.py, two_way_decomposition). */
module Decomposition {
  import opened Base
  import opened Grids
  import opened Effects

  /** A line of the tidy gamma block: the residual of one filled cell, by labels. */
  datatype Residual = Residual(iters: nat, history: nat, gamma: real)

  /** The four blocks two_way_decomposition returns: the global mean, the
      labelled main effects of iterations and of history (missing where the
      row or column is empty), and the residuals of the filled cells in
      row-major order. */
  datatype Decomposition = Decomposition(
    mu: Option<real>,
    alpha: seq<(nat, Option<real>)>,
    beta: seq<(nat, Option<real>)>,
    gamma: seq<Residual>)

  // ------------------------------------------------------- the components

  function Values(s: seq<Entry>): (vs: seq<real>)
    ensures |vs| == |s| && forall k :: 0 <= k < |s| ==> vs[k] == s[k].value
  {
    seq(|s|, k requires 0 <= k < |s| => s[k].value)
  }

  /** mu: the mean of all filled cells (mat.stack().mean()). */
  function Mu(g: Grid): Option<real>
    requires g.Valid()
  {
    Mean(Values(Stack(g.cells)))
  }

  /** alpha_i: the row mean minus mu. */
  function Alpha(g: Grid, a: nat): Option<real>
    requires g.Valid() && a < |g.iters|
  {
    Minus(RowMean(g, a), Mu(g))
  }

  /** beta_h: the column mean minus mu. */
  function Beta(g: Grid, b: nat): Option<real>
    requires g.Valid() && b < |g.history|
  {
    Minus(ColMean(g, b), Mu(g))
  }

  /** gamma_ih: what the additive part mu + alpha_i + beta_h leaves of the cell. */
  function Gamma(g: Grid, a: nat, b: nat): Option<real>
    requires g.Valid() && a < |g.iters| && b < |g.history|
  {
    Minus(g.cells[a][b], Plus(Plus(Mu(g), Alpha(g, a)), Beta(g, b)))
  }

  function AlphaSeq(g: Grid): (r: seq<Option<real>>)
    requires g.Valid()
    ensures |r| == |g.iters| && forall a :: 0 <= a < |g.iters| ==> r[a] == Alpha(g, a)
  {
    seq(|g.iters|, a requires 0 <= a < |g.iters| => Alpha(g, a))
  }

  function BetaSeq(g: Grid): (r: seq<Option<real>>)
    requires g.Valid()
    ensures |r| == |g.history| && forall b :: 0 <= b < |g.history| ==> r[b] == Beta(g, b)
  {
    seq(|g.history|, b requires 0 <= b < |g.history| => Beta(g, b))
  }

  /** The residual matrix, with the matrix's shape. */
  function GammaCells(g: Grid): (r: seq<seq<Option<real>>>)
    requires g.Valid()
    ensures |r| == |g.iters| && forall a :: 0 <= a < |g.iters| ==> |r[a]| == |g.history|
    ensures forall a, b :: 0 <= a < |g.iters| && 0 <= b < |g.history| ==> r[a][b] == Gamma(g, a, b)
  {
    seq(|g.iters|, a requires 0 <= a < |g.iters| =>
      seq(|g.history|, b requires 0 <= b < |g.history| => Gamma(g, a, b)))
  }

  /** Attaches the axis labels to a vector of effects. */
  function Labelled(labels: seq<nat>, effects: seq<Option<real>>): seq<(nat, Option<real>)>
    requires |labels| == |effects|
  {
    seq(|labels|, k requires 0 <= k < |labels| => (labels[k], effects[k]))
  }

  /** The effect column of a labelled block. */
  function EffectsOf(block: seq<(nat, Option<real>)>): (r: seq<Option<real>>)
    ensures |r| == |block| && forall k :: 0 <= k < |block| ==> r[k] == block[k].1
  {
    seq(|block|, k requires 0 <= k < |block| => block[k].1)
  }

  /** The tidy gamma block: stacked residuals with their axis labels. */
  function Tidy(g: Grid, s: seq<Entry>): seq<Residual>
    requires g.Valid()
    requires forall k :: 0 <= k < |s| ==> s[k].a < |g.iters| && s[k].b < |g.history|
  {
    seq(|s|, k requires 0 <= k < |s| => Residual(g.iters[s[k].a], g.history[s[k].b], s[k].value))
  }

  /** What two_way_decomposition returns. */
  function Decompose(g: Grid): Decomposition
    requires g.Valid()
  {
    var gc := GammaCells(g);
    StackSpec(gc);
    Decomposition(Mu(g), Labelled(g.iters, AlphaSeq(g)), Labelled(g.history, BetaSeq(g)), Tidy(g, Stack(gc)))
  }

  /** The computation as the source does it: the effects first, then the
      residual matrix filled cell by cell, then the stacked residuals. */
  method TwoWayDecomposition(g: Grid) returns (d: Decomposition)
    requires g.Valid()
    ensures d == Decompose(g)
  {
    var m, n := |g.iters|, |g.history|;
    var mu := Mu(g);
    var alpha := AlphaSeq(g);
    var beta := BetaSeq(g);
    var gamma := new Option<real>[m, n];
    for a := 0 to m
      invariant forall a', b' :: 0 <= a' < a && 0 <= b' < n ==> gamma[a', b'] == Gamma(g, a', b')
    {
      for b := 0 to n
        invariant forall a', b' :: 0 <= a' < a && 0 <= b' < n ==> gamma[a', b'] == Gamma(g, a', b')
        invariant forall b' :: 0 <= b' < b ==> gamma[a, b'] == Gamma(g, a, b')
      {
        gamma[a, b] := Minus(g.cells[a][b], Plus(Plus(mu, alpha[a]), beta[b]));
      }
    }
    var cells := seq(m, a requires 0 <= a < m reads gamma =>
      seq(n, b requires 0 <= b < n reads gamma => gamma[a, b]));
    assert cells == GammaCells(g) by {
      forall a | 0 <= a < m ensures cells[a] == GammaCells(g)[a] { }
    }
    StackSpec(cells);
    d := Decomposition(mu, Labelled(g.iters, alpha), Labelled(g.history, beta), Tidy(g, Stack(cells)));
  }

  // ------------------------------------------------------------ properties

  /** Every filled cell is recovered exactly: mu + alpha_i + beta_h + gamma_ih
      = M(i,h), all four present; and a residual is missing exactly where the
      cell is. */
  lemma DecompositionIdentity(g: Grid, a: nat, b: nat)
    requires g.Valid() && a < |g.iters| && b < |g.history|
    ensures Gamma(g, a, b).Some? <==> g.cells[a][b].Some?
    ensures g.cells[a][b].Some? ==>
      && Mu(g).Some? && Alpha(g, a).Some? && Beta(g, b).Some?
      && Mu(g).value + Alpha(g, a).value + Beta(g, b).value + Gamma(g, a, b).value == g.cells[a][b].value
  {
    if g.cells[a][b].Some? {
      RowMeanPresent(g, a);
      ColMeanPresent(g, b);
      StackEmpty(g.cells);
    }
  }

  /** Line k of the tidy gamma block is entry k of the stacked residual matrix, under its labels. */
  lemma DecomposeGamma(g: Grid)
    requires g.Valid()
    ensures |Decompose(g).gamma| == |Stack(GammaCells(g))|
    ensures forall k :: 0 <= k < |Stack(GammaCells(g))| ==>
      var e := Stack(GammaCells(g))[k];
      && e.a < |g.iters| && e.b < |g.history|
      && Decompose(g).gamma[k] == Residual(g.iters[e.a], g.history[e.b], e.value)
  {
    StackSpec(GammaCells(g));
  }

  /** Every line of the tidy gamma block is the residual of a filled cell. */
  lemma TidyGammaSound(g: Grid, r: Residual)
    requires g.Valid() && r in Decompose(g).gamma
    ensures exists a: nat, b: nat :: (a < |g.iters| && b < |g.history| && g.cells[a][b].Some?
      && r.iters == g.iters[a] && r.history == g.history[b] && Gamma(g, a, b) == Some(r.gamma))
  {
    var gc := GammaCells(g);
    var s := Stack(gc);
    DecomposeGamma(g);
    StackSpec(gc);
    var k :| 0 <= k < |Decompose(g).gamma| && Decompose(g).gamma[k] == r;
    var e := s[k];
    assert e in s;
    assert gc[e.a][e.b] == Gamma(g, e.a, e.b);
    DecompositionIdentity(g, e.a, e.b);
  }

  /** Every filled cell has its residual in the tidy gamma block. */
  lemma TidyGammaComplete(g: Grid, a: nat, b: nat)
    requires g.Valid() && a < |g.iters| && b < |g.history| && g.cells[a][b].Some?
    ensures Gamma(g, a, b).Some?
    ensures Residual(g.iters[a], g.history[b], Gamma(g, a, b).value) in Decompose(g).gamma
  {
    DecompositionIdentity(g, a, b);
    var gc := GammaCells(g);
    var s := Stack(gc);
    StackSpec(gc);
    DecomposeGamma(g);
    var e := Entry(a, b, Gamma(g, a, b).value);
    assert e in s;
    var k :| 0 <= k < |s| && s[k] == e;
    assert Decompose(g).gamma[k] == Residual(g.iters[a], g.history[b], Gamma(g, a, b).value);
  }

  /** The tidy gamma block lists the residual of every filled cell and of no
      missing cell, under the cell's labels. */
  lemma TidyGamma(g: Grid)
    requires g.Valid()
    ensures forall r :: r in Decompose(g).gamma <==>
      exists a: nat, b: nat :: (a < |g.iters| && b < |g.history| && g.cells[a][b].Some?
        && r.iters == g.iters[a] && r.history == g.history[b] && Gamma(g, a, b) == Some(r.gamma))
  {
    forall r: Residual | r in Decompose(g).gamma
      ensures exists a: nat, b: nat :: (a < |g.iters| && b < |g.history| && g.cells[a][b].Some?
        && r.iters == g.iters[a] && r.history == g.history[b] && Gamma(g, a, b) == Some(r.gamma))
    {
      TidyGammaSound(g, r);
    }
    forall r: Residual | exists a: nat, b: nat :: (a < |g.iters| && b < |g.history| && g.cells[a][b].Some?
        && r.iters == g.iters[a] && r.history == g.history[b] && Gamma(g, a, b) == Some(r.gamma))
      ensures r in Decompose(g).gamma
    {
      var a: nat, b: nat :| a < |g.iters| && b < |g.history| && g.cells[a][b].Some?
        && r.iters == g.iters[a] && r.history == g.history[b] && Gamma(g, a, b) == Some(r.gamma);
      TidyGammaComplete(g, a, b);
    }
  }

  // ------------------------------------------------------ full-grid sums

  /** No cell of the matrix is missing. */
  predicate Full(g: Grid)
    requires g.Valid()
  {
    forall a, b :: 0 <= a < |g.iters| && 0 <= b < |g.history| ==> g.cells[a][b].Some?
  }

  function Cell(g: Grid, a: nat, b: nat): real
    requires g.Valid() && Full(g) && a < |g.iters| && b < |g.history|
  {
    g.cells[a][b].value
  }

  /** The sum of the first k cells of row a. */
  function RowPart(g: Grid, a: nat, k: nat): real
    requires g.Valid() && Full(g) && a < |g.iters| && k <= |g.history|
  {
    if k == 0 then 0.0 else RowPart(g, a, k - 1) + Cell(g, a, k - 1)
  }

  /** The sum of the first k cells of column b. */
  function ColPart(g: Grid, b: nat, k: nat): real
    requires g.Valid() && Full(g) && b < |g.history| && k <= |g.iters|
  {
    if k == 0 then 0.0 else ColPart(g, b, k - 1) + Cell(g, k - 1, b)
  }

  /** The sum of the i x j corner, row by row. */
  function RowsUpTo(g: Grid, i: nat, j: nat): real
    requires g.Valid() && Full(g) && i <= |g.iters| && j <= |g.history|
  {
    if i == 0 then 0.0 else RowsUpTo(g, i - 1, j) + RowPart(g, i - 1, j)
  }

  /** The sum of the i x j corner, column by column. */
  function ColsUpTo(g: Grid, j: nat, i: nat): real
    requires g.Valid() && Full(g) && i <= |g.iters| && j <= |g.history|
  {
    if j == 0 then 0.0 else ColsUpTo(g, j - 1, i) + ColPart(g, j - 1, i)
  }

  lemma {:induction false} ColsZero(g: Grid, j: nat)
    requires g.Valid() && Full(g) && j <= |g.history|
    ensures ColsUpTo(g, j, 0) == 0.0
  {
    if j > 0 {
      ColsZero(g, j - 1);
    }
  }

  lemma {:induction false} ColsStep(g: Grid, j: nat, i: nat)
    requires g.Valid() && Full(g) && i < |g.iters| && j <= |g.history|
    ensures ColsUpTo(g, j, i + 1) == ColsUpTo(g, j, i) + RowPart(g, i, j)
  {
    if j > 0 {
      ColsStep(g, j - 1, i);
    }
  }

  /** Summing a corner row by row or column by column gives the same total. */
  lemma {:induction false} Exchange(g: Grid, i: nat, j: nat)
    requires g.Valid() && Full(g) && i <= |g.iters| && j <= |g.history|
    ensures RowsUpTo(g, i, j) == ColsUpTo(g, j, i)
  {
    if i == 0 {
      ColsZero(g, j);
    } else {
      Exchange(g, i - 1, j);
      ColsStep(g, j, i - 1);
    }
  }

  lemma {:induction false} SumSnoc(xs: seq<real>, x: real)
    ensures Sum(xs + [x]) == Sum(xs) + x
  {
    assert (xs + [x])[..|xs|] == xs;
  }

  lemma {:induction false} SomesSnoc(xs: seq<Option<real>>, x: Option<real>)
    ensures Somes(xs + [x]) == Somes(xs) + (if x.Some? then [x.value] else [])
  {
    assert (xs + [x])[..|xs|] == xs;
  }

  /** The filled cells of a full row prefix sum to its RowPart. */
  lemma {:induction false} RowSum(g: Grid, a: nat, k: nat)
    requires g.Valid() && Full(g) && a < |g.iters| && k <= |g.history|
    ensures |Somes(g.cells[a][..k])| == k && Sum(Somes(g.cells[a][..k])) == RowPart(g, a, k)
  {
    if k > 0 {
      RowSum(g, a, k - 1);
      var row := g.cells[a];
      assert row[..k] == row[..k - 1] + [row[k - 1]];
      SomesSnoc(row[..k - 1], row[k - 1]);
      SumSnoc(Somes(row[..k - 1]), Cell(g, a, k - 1));
    }
  }

  /** The filled cells of a full column prefix sum to its ColPart. */
  lemma {:induction false} ColSum(g: Grid, b: nat, k: nat)
    requires g.Valid() && Full(g) && b < |g.history| && k <= |g.iters|
    ensures |Somes(Column(g, b)[..k])| == k && Sum(Somes(Column(g, b)[..k])) == ColPart(g, b, k)
  {
    if k > 0 {
      ColSum(g, b, k - 1);
      var col := Column(g, b);
      assert col[..k] == col[..k - 1] + [col[k - 1]];
      SomesSnoc(col[..k - 1], col[k - 1]);
      SumSnoc(Somes(col[..k - 1]), Cell(g, k - 1, b));
    }
  }

  lemma {:induction false} RowEntriesValues(a: nat, row: seq<Option<real>>)
    ensures Values(RowEntries(a, row)) == Somes(row)
  {
    if row != [] {
      var init := row[..|row| - 1];
      RowEntriesValues(a, init);
      var last := if row[|row| - 1].Some? then [Entry(a, |row| - 1, row[|row| - 1].value)] else [];
      assert Values(RowEntries(a, init) + last) == Values(RowEntries(a, init)) + Values(last);
    }
  }

  lemma {:induction false} StackValues(cells: seq<seq<Option<real>>>, i: nat)
    requires i <= |cells|
    ensures Values(Stack(cells[..i])) == (if i == 0 then [] else Values(Stack(cells[..i - 1])) + Somes(cells[i - 1]))
  {
    if i > 0 {
      var c := cells[..i];
      assert c[..i - 1] == cells[..i - 1];
      RowEntriesValues(i - 1, cells[i - 1]);
      assert Values(Stack(c[..i - 1]) + RowEntries(i - 1, c[i - 1])) == Values(Stack(c[..i - 1])) + Values(RowEntries(i - 1, c[i - 1]));
    }
  }

  /** A whole row of a full matrix: n values summing to its RowPart. */
  lemma FullRowSum(g: Grid, a: nat)
    requires g.Valid() && Full(g) && a < |g.iters|
    ensures |Somes(g.cells[a])| == |g.history| && Sum(Somes(g.cells[a])) == RowPart(g, a, |g.history|)
  {
    RowSum(g, a, |g.history|);
    assert g.cells[a][..|g.history|] == g.cells[a];
  }

  lemma CountStep(i: nat, n: nat)
    requires i > 0
    ensures (i - 1) * n + n == i * n
  {
  }

  /** The stack of the first i rows of a full matrix: i * n values summing to
      the corner's total. */
  lemma {:induction false} StackFull(g: Grid, i: nat)
    requires g.Valid() && Full(g) && i <= |g.iters|
    ensures |Values(Stack(g.cells[..i]))| == i * |g.history|
    ensures Sum(Values(Stack(g.cells[..i]))) == RowsUpTo(g, i, |g.history|)
  {
    if i > 0 {
      StackFull(g, i - 1);
      StackValues(g.cells, i);
      FullRowSum(g, i - 1);
      SumAppend(Values(Stack(g.cells[..i - 1])), Somes(g.cells[i - 1]));
      CountStep(i, |g.history|);
    }
  }

  /** On a full non-empty matrix, mu is present and is the plain average of the cells. */
  lemma FullMu(g: Grid)
    requires g.Valid() && Full(g) && |g.iters| > 0 && |g.history| > 0
    ensures Mu(g).Some? && Mu(g).value * (|g.iters| * |g.history|) as real == RowsUpTo(g, |g.iters|, |g.history|)
  {
    StackFull(g, |g.iters|);
    assert g.cells[..|g.iters|] == g.cells;
  }

  /** On a full matrix, a row mean is the plain average of the row. */
  lemma FullRowMean(g: Grid, a: nat)
    requires g.Valid() && Full(g) && a < |g.iters| && |g.history| > 0
    ensures RowMean(g, a).Some? && RowMean(g, a).value * |g.history| as real == RowPart(g, a, |g.history|)
  {
    FullRowSum(g, a);
  }

  /** On a full matrix, a column mean is the plain average of the column. */
  lemma FullColMean(g: Grid, b: nat)
    requires g.Valid() && Full(g) && b < |g.history| && |g.iters| > 0
    ensures ColMean(g, b).Some? && ColMean(g, b).value * |g.iters| as real == ColPart(g, b, |g.iters|)
  {
    ColSum(g, b, |g.iters|);
    assert Column(g, b)[..|g.iters|] == Column(g, b);
  }

  // -------------------------------------------------------------- centering

  function RowMeans(g: Grid): (r: seq<Option<real>>)
    requires g.Valid()
    ensures |r| == |g.iters| && forall a :: 0 <= a < |g.iters| ==> r[a] == RowMean(g, a)
  {
    seq(|g.iters|, a requires 0 <= a < |g.iters| => RowMean(g, a))
  }

  function ColMeans(g: Grid): (r: seq<Option<real>>)
    requires g.Valid()
    ensures |r| == |g.history| && forall b :: 0 <= b < |g.history| ==> r[b] == ColMean(g, b)
  {
    seq(|g.history|, b requires 0 <= b < |g.history| => ColMean(g, b))
  }

  function RowParts(g: Grid): (r: seq<real>)
    requires g.Valid() && Full(g)
    ensures |r| == |g.iters| && forall a :: 0 <= a < |g.iters| ==> r[a] == RowPart(g, a, |g.history|)
  {
    seq(|g.iters|, a requires 0 <= a < |g.iters| => RowPart(g, a, |g.history|))
  }

  function ColParts(g: Grid): (r: seq<real>)
    requires g.Valid() && Full(g)
    ensures |r| == |g.history| && forall b :: 0 <= b < |g.history| ==> r[b] == ColPart(g, b, |g.iters|)
  {
    seq(|g.history|, b requires 0 <= b < |g.history| => ColPart(g, b, |g.iters|))
  }

  lemma {:induction false} RowPartsSum(g: Grid, i: nat)
    requires g.Valid() && Full(g) && i <= |g.iters|
    ensures Sum(RowParts(g)[..i]) == RowsUpTo(g, i, |g.history|)
  {
    if i > 0 {
      RowPartsSum(g, i - 1);
      assert RowParts(g)[..i][..i - 1] == RowParts(g)[..i - 1];
    }
  }

  lemma {:induction false} ColPartsSum(g: Grid, j: nat)
    requires g.Valid() && Full(g) && j <= |g.history|
    ensures Sum(ColParts(g)[..j]) == ColsUpTo(g, j, |g.iters|)
  {
    if j > 0 {
      ColPartsSum(g, j - 1);
      assert ColParts(g)[..j][..j - 1] == ColParts(g)[..j - 1];
    }
  }

  /** The row sums of a full matrix add up to its total. */
  lemma RowPartsTotal(g: Grid)
    requires g.Valid() && Full(g)
    ensures Sum(RowParts(g)) == RowsUpTo(g, |g.iters|, |g.history|)
  {
    RowPartsSum(g, |g.iters|);
    assert RowParts(g)[..|g.iters|] == RowParts(g);
  }

  /** The column sums of a full matrix add up to its total. */
  lemma ColPartsTotal(g: Grid)
    requires g.Valid() && Full(g)
    ensures Sum(ColParts(g)) == RowsUpTo(g, |g.iters|, |g.history|)
  {
    ColPartsSum(g, |g.history|);
    assert ColParts(g)[..|g.history|] == ColParts(g);
    Exchange(g, |g.iters|, |g.history|);
  }

  /** On a full matrix, every row mean is present and n times it is the row's sum. */
  lemma RowMeansTimes(g: Grid)
    requires g.Valid() && Full(g) && |g.history| > 0
    ensures forall a :: 0 <= a < |RowMeans(g)| ==>
      RowMeans(g)[a].Some? && RowMeans(g)[a].value * |g.history| as real == RowParts(g)[a]
  {
    forall a | 0 <= a < |g.iters| {
      FullRowMean(g, a);
    }
  }

  /** On a full matrix, every column mean is present and m times it is the column's sum. */
  lemma ColMeansTimes(g: Grid)
    requires g.Valid() && Full(g) && |g.iters| > 0
    ensures forall b :: 0 <= b < |ColMeans(g)| ==>
      ColMeans(g)[b].Some? && ColMeans(g)[b].value * |g.iters| as real == ColParts(g)[b]
  {
    forall b | 0 <= b < |g.history| {
      FullColMean(g, b);
    }
  }

  /** On a full matrix, the alpha effects are the row means less mu. */
  lemma AlphaShifted(g: Grid)
    requires g.Valid() && Full(g) && |g.iters| > 0 && |g.history| > 0
    ensures Mu(g).Some? && Somes(AlphaSeq(g)) == Shift(Somes(RowMeans(g)), Mu(g).value)
  {
    FullMu(g);
    forall a | 0 <= a < |g.iters|
      ensures RowMeans(g)[a].Some? && AlphaSeq(g)[a] == Some(RowMeans(g)[a].value - Mu(g).value)
    {
      FullRowMean(g, a);
    }
    EffectsAreShifted(AlphaSeq(g), RowMeans(g), Mu(g).value);
  }

  /** On a full matrix, the beta effects are the column means less mu. */
  lemma BetaShifted(g: Grid)
    requires g.Valid() && Full(g) && |g.iters| > 0 && |g.history| > 0
    ensures Mu(g).Some? && Somes(BetaSeq(g)) == Shift(Somes(ColMeans(g)), Mu(g).value)
  {
    FullMu(g);
    forall b | 0 <= b < |g.history|
      ensures ColMeans(g)[b].Some? && BetaSeq(g)[b] == Some(ColMeans(g)[b].value - Mu(g).value)
    {
      FullColMean(g, b);
    }
    EffectsAreShifted(BetaSeq(g), ColMeans(g), Mu(g).value);
  }

  /** FullMu with the count of cells cast to real factor by factor. */
  lemma MuTotal(g: Grid)
    requires g.Valid() && Full(g) && |g.iters| > 0 && |g.history| > 0
    ensures Mu(g).Some?
    ensures Mu(g).value * (|g.iters| as real * |g.history| as real) == RowsUpTo(g, |g.iters|, |g.history|)
    ensures Mu(g).value * (|g.history| as real * |g.iters| as real) == RowsUpTo(g, |g.iters|, |g.history|)
  {
    FullMu(g);
    ScaledTotal(Mu(g).value, |g.iters|, |g.history|, RowsUpTo(g, |g.iters|, |g.history|));
  }

  /** The alpha means of a full matrix, each n times a row sum, the sums adding up to the total. */
  lemma AlphaScaled(g: Grid) returns (means: seq<Option<real>>, sums: seq<real>, total: real)
    requires g.Valid() && Full(g) && |g.iters| > 0 && |g.history| > 0
    ensures means == RowMeans(g) && total == RowsUpTo(g, |g.iters|, |g.history|)
    ensures |means| == |sums| == |g.iters|
    ensures forall k :: 0 <= k < |means| ==> means[k].Some? && means[k].value * |g.history| as real == sums[k]
    ensures Sum(sums) == total
  {
    means, sums, total := RowMeans(g), RowParts(g), RowsUpTo(g, |g.iters|, |g.history|);
    RowMeansTimes(g);
    RowPartsTotal(g);
  }

  /** mu of a full matrix, with mu times the count of cells the total and the alpha effects the means less mu. */
  lemma AlphaCentre(g: Grid) returns (mu: real)
    requires g.Valid() && Full(g) && |g.iters| > 0 && |g.history| > 0
    ensures mu * (|g.iters| as real * |g.history| as real) == RowsUpTo(g, |g.iters|, |g.history|)
    ensures Somes(AlphaSeq(g)) == Shift(Somes(RowMeans(g)), mu)
  {
    MuTotal(g);
    AlphaShifted(g);
    mu := Mu(g).value;
  }

  /** The facts that centre the alpha effects, over plain values. */
  lemma AlphaFacts(g: Grid) returns (means: seq<Option<real>>, sums: seq<real>, mu: real, total: real)
    requires g.Valid() && Full(g) && |g.iters| > 0 && |g.history| > 0
    ensures |means| == |sums| == |g.iters|
    ensures forall k :: 0 <= k < |means| ==> means[k].Some? && means[k].value * |g.history| as real == sums[k]
    ensures Sum(sums) == total && mu * (|g.iters| as real * |g.history| as real) == total
    ensures Somes(AlphaSeq(g)) == Shift(Somes(means), mu)
  {
    means, sums, total := AlphaScaled(g);
    mu := AlphaCentre(g);
  }

  /** On a full non-empty matrix, the alpha effects sum to 0. */
  lemma AlphaSumZero(g: Grid)
    requires g.Valid() && Full(g) && |g.iters| > 0 && |g.history| > 0
    ensures |Somes(AlphaSeq(g))| == |g.iters| && Sum(Somes(AlphaSeq(g))) == 0.0
  {
    var means, sums, mu, total := AlphaFacts(g);
    CenteredMeans(means, sums, mu, |g.iters| as real, |g.history| as real, total);
  }

  /** The beta means of a full matrix, each m times a column sum, the sums adding up to the total. */
  lemma BetaScaled(g: Grid) returns (means: seq<Option<real>>, sums: seq<real>, total: real)
    requires g.Valid() && Full(g) && |g.iters| > 0 && |g.history| > 0
    ensures means == ColMeans(g) && total == RowsUpTo(g, |g.iters|, |g.history|)
    ensures |means| == |sums| == |g.history|
    ensures forall k :: 0 <= k < |means| ==> means[k].Some? && means[k].value * |g.iters| as real == sums[k]
    ensures Sum(sums) == total
  {
    means, sums, total := ColMeans(g), ColParts(g), RowsUpTo(g, |g.iters|, |g.history|);
    ColMeansTimes(g);
    ColPartsTotal(g);
  }

  /** mu of a full matrix, with mu times the count of cells the total and the beta effects the means less mu. */
  lemma BetaCentre(g: Grid) returns (mu: real)
    requires g.Valid() && Full(g) && |g.iters| > 0 && |g.history| > 0
    ensures mu * (|g.history| as real * |g.iters| as real) == RowsUpTo(g, |g.iters|, |g.history|)
    ensures Somes(BetaSeq(g)) == Shift(Somes(ColMeans(g)), mu)
  {
    MuTotal(g);
    BetaShifted(g);
    mu := Mu(g).value;
  }

  /** The facts that centre the beta effects, over plain values. */
  lemma BetaFacts(g: Grid) returns (means: seq<Option<real>>, sums: seq<real>, mu: real, total: real)
    requires g.Valid() && Full(g) && |g.iters| > 0 && |g.history| > 0
    ensures |means| == |sums| == |g.history|
    ensures forall k :: 0 <= k < |means| ==> means[k].Some? && means[k].value * |g.iters| as real == sums[k]
    ensures Sum(sums) == total && mu * (|g.history| as real * |g.iters| as real) == total
    ensures Somes(BetaSeq(g)) == Shift(Somes(means), mu)
  {
    means, sums, total := BetaScaled(g);
    mu := BetaCentre(g);
  }

  /** On a full non-empty matrix, the beta effects sum to 0. */
  lemma BetaSumZero(g: Grid)
    requires g.Valid() && Full(g) && |g.iters| > 0 && |g.history| > 0
    ensures |Somes(BetaSeq(g))| == |g.history| && Sum(Somes(BetaSeq(g))) == 0.0
  {
    var means, sums, mu, total := BetaFacts(g);
    CenteredMeans(means, sums, mu, |g.history| as real, |g.iters| as real, total);
  }

  /** The effect columns of the alpha and beta blocks (a helper of Centering). */
  lemma DecomposeEffects(g: Grid)
    requires g.Valid()
    ensures EffectsOf(Decompose(g).alpha) == AlphaSeq(g)
    ensures EffectsOf(Decompose(g).beta) == BetaSeq(g)
  {
  }

  /** Line k of the alpha block is the k-th iterations value with its main effect. */
  lemma DecomposeAlpha(g: Grid)
    requires g.Valid()
    ensures |Decompose(g).alpha| == |g.iters|
    ensures forall a :: 0 <= a < |g.iters| ==> Decompose(g).alpha[a] == (g.iters[a], Alpha(g, a))
  {
  }

  /** Line k of the beta block is the k-th history value with its main effect. */
  lemma DecomposeBeta(g: Grid)
    requires g.Valid()
    ensures |Decompose(g).beta| == |g.history|
    ensures forall b :: 0 <= b < |g.history| ==> Decompose(g).beta[b] == (g.history[b], Beta(g, b))
  {
  }

  /** The main effect of row a is present exactly when the row has a filled
      cell, and then, added to mu, it is the mean of the row's filled cells. */
  lemma AlphaAt(g: Grid, a: nat)
    requires g.Valid() && a < |g.iters|
    ensures Alpha(g, a).Some? <==> exists b :: 0 <= b < |g.history| && g.cells[a][b].Some?
    ensures Alpha(g, a).Some? ==>
      Mu(g).Some? && (Alpha(g, a).value + Mu(g).value) * |Somes(g.cells[a])| as real == Sum(Somes(g.cells[a]))
  {
    RowMeanPresent(g, a);
    if RowMean(g, a).Some? {
      StackEmpty(g.cells);
      MeanTimesCount(Somes(g.cells[a]));
    }
  }

  /** The main effect of column b, likewise. */
  lemma BetaAt(g: Grid, b: nat)
    requires g.Valid() && b < |g.history|
    ensures Beta(g, b).Some? <==> exists a :: 0 <= a < |g.iters| && g.cells[a][b].Some?
    ensures Beta(g, b).Some? ==>
      Mu(g).Some? && (Beta(g, b).value + Mu(g).value) * |Somes(Column(g, b))| as real == Sum(Somes(Column(g, b)))
  {
    ColMeanPresent(g, b);
    if ColMean(g, b).Some? {
      StackEmpty(g.cells);
      MeanTimesCount(Somes(Column(g, b)));
    }
  }

  /** The alpha block: one line per iterations value, in axis order, under
      its label; the effect is missing exactly for a row with no filled cell,
      and otherwise it is the row's mean less mu (AlphaAt: mu plus the
      effect, times the row's number of filled cells, is their sum). */
  lemma AlphaBlock(g: Grid)
    requires g.Valid()
    ensures |Decompose(g).alpha| == |g.iters|
    ensures forall a :: 0 <= a < |g.iters| ==>
      && Decompose(g).alpha[a].0 == g.iters[a]
      && (Decompose(g).alpha[a].1.Some? <==> exists b :: 0 <= b < |g.history| && g.cells[a][b].Some?)
      && (Decompose(g).alpha[a].1.Some? ==>
            Mu(g).Some? && RowMean(g, a).Some? && Decompose(g).alpha[a].1.value == RowMean(g, a).value - Mu(g).value)
  {
    var d := Decompose(g);
    DecomposeAlpha(g);
    forall a | 0 <= a < |g.iters|
      ensures d.alpha[a].0 == g.iters[a]
      ensures d.alpha[a].1.Some? <==> exists b :: 0 <= b < |g.history| && g.cells[a][b].Some?
      ensures d.alpha[a].1.Some? ==>
        Mu(g).Some? && RowMean(g, a).Some? && d.alpha[a].1.value == RowMean(g, a).value - Mu(g).value
    {
      AlphaAt(g, a);
    }
  }

  /** The beta block: one line per history value, in axis order, under its
      label; the effect is missing exactly for a column with no filled cell,
      and otherwise it is the column's mean less mu. */
  lemma BetaBlock(g: Grid)
    requires g.Valid()
    ensures |Decompose(g).beta| == |g.history|
    ensures forall b :: 0 <= b < |g.history| ==>
      && Decompose(g).beta[b].0 == g.history[b]
      && (Decompose(g).beta[b].1.Some? <==> exists a :: 0 <= a < |g.iters| && g.cells[a][b].Some?)
      && (Decompose(g).beta[b].1.Some? ==>
            Mu(g).Some? && ColMean(g, b).Some? && Decompose(g).beta[b].1.value == ColMean(g, b).value - Mu(g).value)
  {
    var d := Decompose(g);
    DecomposeBeta(g);
    forall b | 0 <= b < |g.history|
      ensures d.beta[b].0 == g.history[b]
      ensures d.beta[b].1.Some? <==> exists a :: 0 <= a < |g.iters| && g.cells[a][b].Some?
      ensures d.beta[b].1.Some? ==>
        Mu(g).Some? && ColMean(g, b).Some? && d.beta[b].1.value == ColMean(g, b).value - Mu(g).value
    {
      BetaAt(g, b);
    }
  }

  /** On a matrix with no missing cell, the main effects are centred: the
      mean of the alpha block and the mean of the beta block are both 0. */
  lemma Centering(g: Grid)
    requires g.Valid() && Full(g) && |g.iters| > 0 && |g.history| > 0
    ensures Mean(Somes(EffectsOf(Decompose(g).alpha))) == Some(0.0)
    ensures Mean(Somes(EffectsOf(Decompose(g).beta))) == Some(0.0)
  {
    DecomposeEffects(g);
    AlphaSumZero(g);
    MeanZero(Somes(AlphaSeq(g)));
    BetaSumZero(g);
    MeanZero(Somes(BetaSeq(g)));
  }

  lemma RowPair(a: nat, row: seq<Option<real>>)
    requires |row| == 2 && row[0].Some? && row[1].Some?
    ensures RowEntries(a, row) == [Entry(a, 0, row[0].value), Entry(a, 1, row[1].value)]
  {
    assert row[..1][..0] == [];
    assert RowEntries(a, row[..1]) == [Entry(a, 0, row[0].value)];
  }

  /** The stack of a full 2 x 2 matrix, in row-major order. */
  lemma StackTwoByTwo(cells: seq<seq<Option<real>>>)
    requires |cells| == 2 && |cells[0]| == 2 && |cells[1]| == 2
    requires cells[0][0].Some? && cells[0][1].Some? && cells[1][0].Some? && cells[1][1].Some?
    ensures Stack(cells) == [Entry(0, 0, cells[0][0].value), Entry(0, 1, cells[0][1].value),
                             Entry(1, 0, cells[1][0].value), Entry(1, 1, cells[1][1].value)]
  {
    RowPair(0, cells[0]);
    RowPair(1, cells[1]);
    assert cells[..1][..0] == [];
    assert Stack(cells[..1]) == RowEntries(0, cells[0]);
  }

  /** The components of the example matrix at its first row and column. */
  lemma ExampleComponents()
    ensures Mu(ExampleGrid()) == Some(3.375)
    ensures Alpha(ExampleGrid(), 0) == Some(0.625)
    ensures Beta(ExampleGrid(), 0) == Some(1.125)
    ensures Gamma(ExampleGrid(), 0, 0) == Some(-0.125)
  {
    var g := ExampleGrid();
    assert Full(g);
    assert RowPart(g, 0, 2) == 8.0;
    assert RowPart(g, 1, 2) == 5.5;
    assert ColPart(g, 0, 2) == 9.0;
    FullMu(g);
    FullRowMean(g, 0);
    FullColMean(g, 0);
  }

  /** On the 2 x 2 example matrix (rows iterations 0 and 10, columns history
      1 and 10, cells 5, 3 / 4, 1.5): mu is 3.375, alpha of iterations 0 is
      0.625, beta of history 1 is 1.125, and the first tidy residual, of cell
      (0, 1), is -0.125. */
  lemma DecompositionExample()
    ensures var d := Decompose(ExampleGrid());
      && d.mu == Some(3.375)
      && |d.alpha| == 2 && d.alpha[0] == (0, Some(0.625))
      && |d.beta| == 2 && d.beta[0] == (1, Some(1.125))
      && |d.gamma| == 4 && d.gamma[0] == Residual(0, 1, -0.125)
  {
    var g := ExampleGrid();
    ExampleComponents();
    var gc: seq<seq<Option<real>>> := GammaCells(g);
    forall a: nat, b: nat | 0 <= a < 2 && 0 <= b < 2 ensures gc[a][b].Some? {
      DecompositionIdentity(g, a, b);
    }
    StackTwoByTwo(gc);
    DecomposeGamma(g);
  }
}
