/** Reading effects off the pivoted matrix (Experiments/analyze.py,
    effect_summary_table and superposition_check), and the row-major
    stacking of its filled cells that both of them and the two-way
    decomposition use. */
module Effects {
  import opened Base
  import opened Text
  import opened Labels
  import opened Grids

  // --------------------------------------------------------------- stacking

  /** A filled cell, by its row and column position. */
  datatype Entry = Entry(a: nat, b: nat, value: real)

  /** The filled cells of row a, left to right. */
  function RowEntries(a: nat, row: seq<Option<real>>): seq<Entry>
  {
    if row == [] then []
    else RowEntries(a, row[..|row| - 1]) + (if row[|row| - 1].Some? then [Entry(a, |row| - 1, row[|row| - 1].value)] else [])
  }

  /** The filled cells row by row (pandas' stack(), which drops NaN). */
  function Stack(cells: seq<seq<Option<real>>>): seq<Entry>
  {
    if cells == [] then [] else Stack(cells[..|cells| - 1]) + RowEntries(|cells| - 1, cells[|cells| - 1])
  }

  /** Row-major order of positions. */
  predicate Before(e: Entry, f: Entry)
  {
    e.a < f.a || (e.a == f.a && e.b < f.b)
  }

  lemma {:induction false} RowEntriesSpec(a: nat, row: seq<Option<real>>)
    ensures forall e :: e in RowEntries(a, row) <==> e.a == a && e.b < |row| && row[e.b] == Some(e.value)
    ensures forall k :: 0 <= k < |RowEntries(a, row)| ==> RowEntries(a, row)[k].a == a && RowEntries(a, row)[k].b < |row|
    ensures forall j, k :: 0 <= j < k < |RowEntries(a, row)| ==> RowEntries(a, row)[j].b < RowEntries(a, row)[k].b
  {
    if row != [] {
      var init := row[..|row| - 1];
      RowEntriesSpec(a, init);
      assert forall b :: 0 <= b < |init| ==> init[b] == row[b];
    }
  }

  /** The stack lists every filled cell exactly at its position and value,
      in row-major order. */
  lemma {:induction false} StackSpec(cells: seq<seq<Option<real>>>)
    ensures forall e :: e in Stack(cells) <==> e.a < |cells| && e.b < |cells[e.a]| && cells[e.a][e.b] == Some(e.value)
    ensures forall k :: 0 <= k < |Stack(cells)| ==> Stack(cells)[k].a < |cells|
    ensures forall j, k :: 0 <= j < k < |Stack(cells)| ==> Before(Stack(cells)[j], Stack(cells)[k])
  {
    if cells != [] {
      var init := cells[..|cells| - 1];
      var last := cells[|cells| - 1];
      StackSpec(init);
      RowEntriesSpec(|init|, last);
      assert forall a :: 0 <= a < |init| ==> init[a] == cells[a];
      var s, r := Stack(init), RowEntries(|init|, last);
      assert Stack(cells) == s + r;
      forall j, k | 0 <= j < k < |s + r| ensures Before((s + r)[j], (s + r)[k]) {
        if k < |s| {
        } else if j < |s| {
          assert (s + r)[k] == r[k - |s|];
        } else {
          assert (s + r)[j] == r[j - |s|] && (s + r)[k] == r[k - |s|];
        }
      }
    }
  }

  lemma {:induction false} RowEntriesEmpty(a: nat, row: seq<Option<real>>)
    ensures RowEntries(a, row) == [] <==> forall b :: 0 <= b < |row| ==> row[b].None?
  {
    if row != [] {
      var init := row[..|row| - 1];
      RowEntriesEmpty(a, init);
      assert forall b :: 0 <= b < |init| ==> init[b] == row[b];
    }
  }

  /** A matrix has an empty stack exactly when it has no filled cell. */
  lemma {:induction false} StackEmpty(cells: seq<seq<Option<real>>>)
    ensures Stack(cells) == [] <==> forall a, b :: 0 <= a < |cells| && 0 <= b < |cells[a]| ==> cells[a][b].None?
  {
    if cells != [] {
      var init := cells[..|cells| - 1];
      StackEmpty(init);
      RowEntriesEmpty(|init|, cells[|init|]);
      assert forall a :: 0 <= a < |init| ==> init[a] == cells[a];
    }
  }

  // ------------------------------------------------------ argmin and argmax

  /** The position of the first least value (pandas' idxmin). */
  function ArgMin(s: seq<Entry>): (k: nat)
    requires s != []
    ensures k < |s|
  {
    if |s| == 1 then 0
    else
      var k := ArgMin(s[..|s| - 1]);
      if s[|s| - 1].value < s[k].value then |s| - 1 else k
  }

  /** The position of the first greatest value (pandas' idxmax). */
  function ArgMax(s: seq<Entry>): (k: nat)
    requires s != []
    ensures k < |s|
  {
    if |s| == 1 then 0
    else
      var k := ArgMax(s[..|s| - 1]);
      if s[|s| - 1].value > s[k].value then |s| - 1 else k
  }

  /** ArgMin finds a least value, and every earlier value is strictly greater. */
  lemma {:induction false} ArgMinSpec(s: seq<Entry>)
    requires s != []
    ensures forall j :: 0 <= j < |s| ==> s[ArgMin(s)].value <= s[j].value
    ensures forall j :: 0 <= j < ArgMin(s) ==> s[j].value > s[ArgMin(s)].value
  {
    if |s| > 1 {
      var init := s[..|s| - 1];
      ArgMinSpec(init);
      assert forall j :: 0 <= j < |init| ==> init[j] == s[j];
    }
  }

  /** ArgMax finds a greatest value, and every earlier value is strictly less. */
  lemma {:induction false} ArgMaxSpec(s: seq<Entry>)
    requires s != []
    ensures forall j :: 0 <= j < |s| ==> s[ArgMax(s)].value >= s[j].value
    ensures forall j :: 0 <= j < ArgMax(s) ==> s[j].value < s[ArgMax(s)].value
  {
    if |s| > 1 {
      var init := s[..|s| - 1];
      ArgMaxSpec(init);
      assert forall j :: 0 <= j < |init| ==> init[j] == s[j];
    }
  }

  // --------------------------------------------------------- effect summary

  /** The three blocks of effect_summary_table: the global best and worst
      cells, the mean over histories of each iterations row, and the mean
      over iterations of each history column. */
  datatype Summary = Summary(
    bestIters: nat, bestHistory: nat, bestValue: real,
    worstIters: nat, worstHistory: nat, worstValue: real,
    itersMeans: seq<(nat, Option<real>)>,
    historyMeans: seq<(nat, Option<real>)>)

  /** What effect_summary_table returns or raises (argmin of an empty stack). */
  function EffectSummary(g: Grid): Result<Summary>
    requires g.Valid()
  {
    var s := Stack(g.cells);
    if s == [] then Err(EmptyMatrix)
    else
      StackSpec(g.cells);
      var best := s[ArgMin(s)];
      var worst := s[ArgMax(s)];
      assert best in s && worst in s;
      Ok(Summary(
        g.iters[best.a], g.history[best.b], best.value,
        g.iters[worst.a], g.history[worst.b], worst.value,
        ItersMeans(g), HistoryMeans(g)))
  }

  /** The mean over histories of each iterations row, labelled. */
  function ItersMeans(g: Grid): seq<(nat, Option<real>)>
    requires g.Valid()
  {
    seq(|g.iters|, a requires 0 <= a < |g.iters| => (g.iters[a], RowMean(g, a)))
  }

  /** The mean over iterations of each history column, labelled. */
  function HistoryMeans(g: Grid): seq<(nat, Option<real>)>
    requires g.Valid()
  {
    seq(|g.history|, b requires 0 <= b < |g.history| => (g.history[b], ColMean(g, b)))
  }

  /** (a, b) holds the first least filled cell in row-major order, with value v. */
  ghost predicate FirstLeast(g: Grid, a: nat, b: nat, v: real)
    requires g.Valid()
  {
    && a < |g.iters| && b < |g.history| && g.cells[a][b] == Some(v)
    && (forall a', b' :: 0 <= a' < |g.iters| && 0 <= b' < |g.history| && g.cells[a'][b'].Some? ==> v <= g.cells[a'][b'].value)
    && (forall a', b' :: 0 <= a' < |g.iters| && 0 <= b' < |g.history| && g.cells[a'][b'].Some? && (a' < a || (a' == a && b' < b))
          ==> v < g.cells[a'][b'].value)
  }

  /** (a, b) holds the first greatest filled cell in row-major order, with value v. */
  ghost predicate FirstGreatest(g: Grid, a: nat, b: nat, v: real)
    requires g.Valid()
  {
    && a < |g.iters| && b < |g.history| && g.cells[a][b] == Some(v)
    && (forall a', b' :: 0 <= a' < |g.iters| && 0 <= b' < |g.history| && g.cells[a'][b'].Some? ==> v >= g.cells[a'][b'].value)
    && (forall a', b' :: 0 <= a' < |g.iters| && 0 <= b' < |g.history| && g.cells[a'][b'].Some? && (a' < a || (a' == a && b' < b))
          ==> v > g.cells[a'][b'].value)
  }

  /** The summary raises exactly when no cell is filled. */
  lemma EffectSummaryFails(g: Grid)
    requires g.Valid()
    ensures EffectSummary(g).Err? <==> forall a, b :: 0 <= a < |g.iters| && 0 <= b < |g.history| ==> g.cells[a][b].None?
    ensures EffectSummary(g).Err? ==> EffectSummary(g).error == EmptyMatrix
  {
    StackEmpty(g.cells);
  }

  /** The reported best cell is the first least filled cell: its value is at
      most every filled cell, it is the matrix entry at the reported labels,
      and every filled cell before it in row-major order is strictly greater. */
  lemma EffectSummaryBest(g: Grid)
    requires g.Valid() && EffectSummary(g).Ok?
    ensures var r := EffectSummary(g).value;
      exists a: nat, b: nat :: a < |g.iters| && b < |g.history| && g.iters[a] == r.bestIters && g.history[b] == r.bestHistory
        && FirstLeast(g, a, b, r.bestValue)
  {
    var s := Stack(g.cells);
    StackSpec(g.cells);
    ArgMinSpec(s);
    var k := ArgMin(s);
    var e := s[k];
    assert e in s;
    forall a', b' | 0 <= a' < |g.iters| && 0 <= b' < |g.history| && g.cells[a'][b'].Some?
      ensures e.value <= g.cells[a'][b'].value
      ensures (a' < e.a || (a' == e.a && b' < e.b)) ==> e.value < g.cells[a'][b'].value
    {
      var f := Entry(a', b', g.cells[a'][b'].value);
      assert f in s;
      var j :| 0 <= j < |s| && s[j] == f;
      assert k < j ==> Before(s[k], s[j]);
    }
    assert FirstLeast(g, e.a, e.b, e.value);
  }

  /** The reported worst cell is the first greatest filled cell. */
  lemma EffectSummaryWorst(g: Grid)
    requires g.Valid() && EffectSummary(g).Ok?
    ensures var r := EffectSummary(g).value;
      exists a: nat, b: nat :: a < |g.iters| && b < |g.history| && g.iters[a] == r.worstIters && g.history[b] == r.worstHistory
        && FirstGreatest(g, a, b, r.worstValue)
  {
    var s := Stack(g.cells);
    StackSpec(g.cells);
    ArgMaxSpec(s);
    var k := ArgMax(s);
    var e := s[k];
    assert e in s;
    forall a', b' | 0 <= a' < |g.iters| && 0 <= b' < |g.history| && g.cells[a'][b'].Some?
      ensures e.value >= g.cells[a'][b'].value
      ensures (a' < e.a || (a' == e.a && b' < e.b)) ==> e.value > g.cells[a'][b'].value
    {
      var f := Entry(a', b', g.cells[a'][b'].value);
      assert f in s;
      var j :| 0 <= j < |s| && s[j] == f;
      assert k < j ==> Before(s[k], s[j]);
    }
    assert FirstGreatest(g, e.a, e.b, e.value);
  }

  /** The row-mean block: one entry per iterations value, in axis order; a
      mean is missing exactly when its row has no filled cell, and otherwise
      times the number of filled cells it is their sum. */
  lemma ItersMeansSpec(g: Grid)
    requires g.Valid()
    ensures |ItersMeans(g)| == |g.iters|
    ensures forall a :: 0 <= a < |g.iters| ==>
      && ItersMeans(g)[a].0 == g.iters[a]
      && (ItersMeans(g)[a].1.Some? <==> exists b :: 0 <= b < |g.history| && g.cells[a][b].Some?)
      && (ItersMeans(g)[a].1.Some? ==> ItersMeans(g)[a].1.value * |Somes(g.cells[a])| as real == Sum(Somes(g.cells[a])))
  {
    forall a | 0 <= a < |g.iters|
      ensures RowMean(g, a).Some? <==> exists b :: 0 <= b < |g.history| && g.cells[a][b].Some?
    {
      RowMeanPresent(g, a);
    }
  }

  /** The column-mean block: one entry per history value, in axis order; a
      mean is missing exactly when its column has no filled cell, and
      otherwise times the number of filled cells it is their sum. */
  lemma HistoryMeansSpec(g: Grid)
    requires g.Valid()
    ensures |HistoryMeans(g)| == |g.history|
    ensures forall b :: 0 <= b < |g.history| ==>
      && HistoryMeans(g)[b].0 == g.history[b]
      && (HistoryMeans(g)[b].1.Some? <==> exists a :: 0 <= a < |g.iters| && g.cells[a][b].Some?)
      && (HistoryMeans(g)[b].1.Some? ==> HistoryMeans(g)[b].1.value * |Somes(Column(g, b))| as real == Sum(Somes(Column(g, b))))
  {
    forall b | 0 <= b < |g.history|
      ensures ColMean(g, b).Some? <==> exists a :: 0 <= a < |g.iters| && g.cells[a][b].Some?
    {
      ColMeanPresent(g, b);
    }
  }

  // ---------------------------------------------------- superposition check

  /** The position of x on an axis, if it is there. */
  function IndexOf(s: seq<nat>, x: int): (r: Option<nat>)
    ensures r.Some? ==> r.value < |s| && s[r.value] == x
    ensures r.None? ==> forall k :: 0 <= k < |s| ==> s[k] != x
  {
    if s == [] then None
    else if s[0] == x then Some(0)
    else match IndexOf(s[1..], x)
      case None => None
      case Some(k) => Some(k + 1)
  }

  /** mat.loc[i, h]: the cell, possibly missing, or a KeyError when either
      label is not on its axis. */
  function Lookup(g: Grid, p: (int, int)): (r: Result<Option<real>>)
    requires g.Valid()
    ensures r.Err? <==> p.0 !in g.iters || p.1 !in g.history
    ensures r.Err? ==> r.error == KeyMissing(p.0, p.1)
    ensures r.Ok? ==> exists a, b :: 0 <= a < |g.iters| && 0 <= b < |g.history| && g.iters[a] == p.0 && g.history[b] == p.1 && r.value == g.cells[a][b]
  {
    match (IndexOf(g.iters, p.0), IndexOf(g.history, p.1))
    case (Some(a), Some(b)) => Ok(g.cells[a][b])
    case _ => Err(KeyMissing(p.0, p.1))
  }

  /** The "<iters>_<history>" label of a coordinate pair. */
  function PairLabel(p: (int, int)): (s: string)
    ensures p.0 >= 0 && p.1 >= 0 ==> s == ExpKey(p.0, p.1).Name()
    ensures p.0 >= 0 && p.1 >= 0 ==> MatchLabel(s) == Some(ExpKey(p.0, p.1))
  {
    if p.0 >= 0 && p.1 >= 0 then
      NameRoundTrip(ExpKey(p.0, p.1));
      IntToString(p.0) + "_" + IntToString(p.1)
    else IntToString(p.0) + "_" + IntToString(p.1)
  }

  const SuperpositionNote: string := "If lower-is-better: negative interaction => synergy, positive => diminishing returns"

  /** The one-row result of superposition_check. */
  datatype Superposition = Superposition(
    baseline: string, a: string, b: string, ab: string,
    mBaseline: Option<real>, mA: Option<real>, mB: Option<real>, mAbObserved: Option<real>,
    mAbExpected: Option<real>, interaction: Option<real>,
    note: string)

  /** What superposition_check returns or raises: the four cells read in the
      order baseline, a, b, ab (the first missing label raises), the additive
      prediction m0 + (ma - m0) + (mb - m0) and the observed-minus-expected
      interaction, with NaN propagating through both. */
  function SuperpositionCheck(g: Grid, baseline: (int, int), a: (int, int), b: (int, int), ab: (int, int)): (r: Result<Superposition>)
    requires g.Valid()
    ensures r.Err? <==> Lookup(g, baseline).Err? || Lookup(g, a).Err? || Lookup(g, b).Err? || Lookup(g, ab).Err?
    ensures r.Err? ==> r.error == (if Lookup(g, baseline).Err? then KeyMissing(baseline.0, baseline.1)
                                   else if Lookup(g, a).Err? then KeyMissing(a.0, a.1)
                                   else if Lookup(g, b).Err? then KeyMissing(b.0, b.1)
                                   else KeyMissing(ab.0, ab.1))
    ensures r.Ok? ==> var s := r.value;
      && s.mBaseline == Lookup(g, baseline).value && s.mA == Lookup(g, a).value
      && s.mB == Lookup(g, b).value && s.mAbObserved == Lookup(g, ab).value
      && s.baseline == PairLabel(baseline) && s.a == PairLabel(a)
      && s.b == PairLabel(b) && s.ab == PairLabel(ab)
      && s.note == SuperpositionNote
      && (s.mAbExpected.Some? <==> s.mBaseline.Some? && s.mA.Some? && s.mB.Some?)
      && (s.mAbExpected.Some? ==> s.mAbExpected.value == s.mA.value + s.mB.value - s.mBaseline.value)
      && (s.interaction.Some? <==> s.mAbExpected.Some? && s.mAbObserved.Some?)
      && (s.interaction.Some? ==> s.interaction.value == s.mAbObserved.value - s.mAbExpected.value)
      && (s.interaction == Some(0.0) <==>
            s.mBaseline.Some? && s.mA.Some? && s.mB.Some? && s.mAbObserved.Some?
            && s.mAbObserved.value == s.mA.value + s.mB.value - s.mBaseline.value)
  {
    match Lookup(g, baseline)
    case Err(e) => Err(e)
    case Ok(m0) =>
      match Lookup(g, a)
      case Err(e) => Err(e)
      case Ok(ma) =>
        match Lookup(g, b)
        case Err(e) => Err(e)
        case Ok(mb) =>
          match Lookup(g, ab)
          case Err(e) => Err(e)
          case Ok(mab) =>
            var expected := Plus(Plus(m0, Minus(ma, m0)), Minus(mb, m0));
            Ok(Superposition(PairLabel(baseline), PairLabel(a), PairLabel(b), PairLabel(ab),
              m0, ma, mb, mab, expected, Minus(mab, expected), SuperpositionNote))
  }

  /** The grid of the documented example: iterations 0 and 10, histories 1
      and 10, M(0,1) = 5, M(0,10) = 3, M(10,1) = 4 and M(10,10) = 1.5. */
  function ExampleGrid(): (g: Grid)
    ensures g.Valid()
  {
    Grid([0, 10], [1, 10], [[Some(5.0), Some(3.0)], [Some(4.0), Some(1.5)]])
  }

  /** On the example, the additive prediction is 2 and the interaction -0.5. */
  lemma SuperpositionExample()
    ensures var r := SuperpositionCheck(ExampleGrid(), (0, 1), (10, 1), (0, 10), (10, 10));
      && r.Ok? && r.value.mAbExpected == Some(2.0) && r.value.interaction == Some(-0.5)
      && r.value.baseline == "0_1" && r.value.ab == "10_10"
  {
    var g := ExampleGrid();
    assert IndexOf(g.iters, 0) == Some(0) && IndexOf(g.iters, 10) == Some(1);
    assert IndexOf(g.history, 1) == Some(0) && IndexOf(g.history, 10) == Some(1);
    assert Lookup(g, (0, 1)) == Ok(Some(5.0));
    assert Lookup(g, (10, 1)) == Ok(Some(4.0));
    assert Lookup(g, (0, 10)) == Ok(Some(3.0));
    assert Lookup(g, (10, 10)) == Ok(Some(1.5));
    assert NatToString(10) == NatToString(1) + [DigitChar(0)];
    assert PairLabel((0, 1)) == "0_1";
    assert PairLabel((10, 10)) == "10_10";
  }
}
