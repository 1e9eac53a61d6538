/** Building the long-form table from per-run metric files and narrowing it to
    one measurement series (Experiments/analyze.py, aggregate_experiments and
    select_rows). */
module Tables {
  import opened Base
  import opened Ordering
  import opened Text
  import opened Labels

  /** One line of a metrics file once its first column is called "name": the
      row's name and its metric cells.  An empty or NaN cell is an absent key. */
  datatype Row = Row(name: string, values: map<string, real>)

  /** A metrics file: its resolved path (components below the root, the file
      last), the metric columns of its header and its rows. */
  datatype CsvFile = CsvFile(path: seq<string>, columns: set<string>, rows: seq<Row>)

  /** A row of the long-form table, tagged with the key of the run it came from. */
  datatype TaggedRow = TaggedRow(expLabel: string, iters: nat, history: nat, name: string, values: map<string, real>)

  /** The long-form table: its metric columns (besides name, exp_label, iters
      and history) and its rows. */
  datatype Table = Table(columns: set<string>, rows: seq<TaggedRow>)

  // ------------------------------------------------------------ aggregation

  /** The rows whose name the includeRegex pattern finds; all rows without one. */
  function Kept(rows: seq<Row>, includeRegex: Option<string -> bool>): seq<Row>
  {
    if rows == [] then []
    else (if includeRegex.None? || includeRegex.value(rows[0].name) then [rows[0]] else []) + Kept(rows[1..], includeRegex)
  }

  function Tag(key: ExpKey, row: Row): TaggedRow
  {
    TaggedRow(key.Name(), key.iters, key.history, row.name, row.values)
  }

  function TagAll(key: ExpKey, rows: seq<Row>): (r: seq<TaggedRow>)
    ensures |r| == |rows| && forall k :: 0 <= k < |rows| ==> r[k] == Tag(key, rows[k])
  {
    seq(|rows|, k requires 0 <= k < |rows| => Tag(key, rows[k]))
  }

  /** How a file's path yields its key; aggregation uses LabelOfPath.  The
      lemmas below hold for any such function. */
  type Labeller = seq<string> -> Result<ExpKey>

  /** A file's contribution: its kept rows, each tagged with the file's key. */
  function Frame(f: CsvFile, includeRegex: Option<string -> bool>, labelOf: Labeller): Result<seq<TaggedRow>>
  {
    match labelOf(f.path)
    case Err(e) => Err(e)
    case Ok(key) => Ok(TagAll(key, Kept(f.rows, includeRegex)))
  }

  /** The frames of all files in order, or the error of the first file whose
      path carries no label. */
  function Frames(files: seq<CsvFile>, includeRegex: Option<string -> bool>, labelOf: Labeller): Result<seq<seq<TaggedRow>>>
  {
    if files == [] then Ok([])
    else match Frames(files[..|files| - 1], includeRegex, labelOf)
      case Err(e) => Err(e)
      case Ok(frames) =>
        match Frame(files[|files| - 1], includeRegex, labelOf)
        case Err(e) => Err(e)
        case Ok(frame) => Ok(frames + [frame])
  }

  /** The columns of the concatenation: every column of every file. */
  function AllColumns(files: seq<CsvFile>): set<string>
  {
    if files == [] then {} else AllColumns(files[..|files| - 1]) + files[|files| - 1].columns
  }

  function Concat<T>(parts: seq<seq<T>>): seq<T>
  {
    if parts == [] then [] else Concat(parts[..|parts| - 1]) + parts[|parts| - 1]
  }

  function AggregateBy(files: seq<CsvFile>, includeRegex: Option<string -> bool>, labelOf: Labeller): Result<Table>
  {
    match Frames(files, includeRegex, labelOf)
    case Err(e) => Err(e)
    case Ok(frames) =>
      if frames == [] then Err(NoFilesLoaded) else Ok(Table(AllColumns(files), Concat(frames)))
  }

  /** What aggregate_experiments returns or raises. */
  function Aggregate(files: seq<CsvFile>, includeRegex: Option<string -> bool>): Result<Table>
  {
    AggregateBy(files, includeRegex, LabelOfPath)
  }

  /** The loop over files, collecting one frame per file, then the concatenation. */
  method AggregateExperiments(files: seq<CsvFile>, includeRegex: Option<string -> bool>) returns (r: Result<Table>)
    ensures r == Aggregate(files, includeRegex)
  {
    var frames: seq<seq<TaggedRow>> := [];
    var columns: set<string> := {};
    for j := 0 to |files|
      invariant Frames(files[..j], includeRegex, LabelOfPath) == Ok(frames)
      invariant columns == AllColumns(files[..j])
    {
      var key := ParseLabelFromPath(files[j].path);
      FramesStep(files, includeRegex, LabelOfPath, j);
      if key.Err? {
        PrefixErrorPersists(files, includeRegex, LabelOfPath, j + 1);
        return Err(key.error);
      }
      frames := frames + [TagAll(key.value, Kept(files[j].rows, includeRegex))];
      columns := columns + files[j].columns;
    }
    assert files[..|files|] == files;
    if frames == [] {
      return Err(NoFilesLoaded);
    }
    return Ok(Table(columns, Concat(frames)));
  }

  /** One more file: its label error, or one more frame. */
  lemma FramesStep(files: seq<CsvFile>, includeRegex: Option<string -> bool>, labelOf: Labeller, j: nat)
    requires j < |files| && Frames(files[..j], includeRegex, labelOf).Ok?
    ensures Frames(files[..j + 1], includeRegex, labelOf) ==
      match labelOf(files[j].path)
      case Err(e) => Err(e)
      case Ok(key) => Ok(Frames(files[..j], includeRegex, labelOf).value + [TagAll(key, Kept(files[j].rows, includeRegex))])
    ensures AllColumns(files[..j + 1]) == AllColumns(files[..j]) + files[j].columns
  {
    assert files[..j + 1][..j] == files[..j];
  }

  /** Once a prefix of the files fails, the whole list fails the same way. */
  lemma {:induction false} PrefixErrorPersists(files: seq<CsvFile>, includeRegex: Option<string -> bool>, labelOf: Labeller, j: nat)
    requires j <= |files| && Frames(files[..j], includeRegex, labelOf).Err?
    ensures Frames(files, includeRegex, labelOf) == Frames(files[..j], includeRegex, labelOf)
    decreases |files| - j
  {
    if j < |files| {
      assert files[..j + 1][..j] == files[..j];
      PrefixErrorPersists(files, includeRegex, labelOf, j + 1);
    } else {
      assert files[..j] == files;
    }
  }

  /** The number of kept rows in the first j files. */
  function KeptBefore(files: seq<CsvFile>, includeRegex: Option<string -> bool>, j: nat): nat
    requires j <= |files|
  {
    if j == 0 then 0 else KeptBefore(files, includeRegex, j - 1) + |Kept(files[j - 1].rows, includeRegex)|
  }

  /** Frames as aggregation builds them: every file has a key and frame j is
      file j's kept rows tagged with file j's key. */
  ghost predicate FramesOf(files: seq<CsvFile>, includeRegex: Option<string -> bool>, labelOf: Labeller, frames: seq<seq<TaggedRow>>)
  {
    && |frames| == |files|
    && (forall j :: 0 <= j < |files| ==> labelOf(files[j].path).Ok?)
    && forall j :: 0 <= j < |files| ==> frames[j] == TagAll(labelOf(files[j].path).value, Kept(files[j].rows, includeRegex))
  }

  /** Frames succeed exactly when every file's path carries a label. */
  lemma {:induction false} FramesOk(files: seq<CsvFile>, includeRegex: Option<string -> bool>, labelOf: Labeller)
    ensures Frames(files, includeRegex, labelOf).Ok? <==> forall j :: 0 <= j < |files| ==> labelOf(files[j].path).Ok?
  {
    if files != [] {
      var init := files[..|files| - 1];
      FramesOk(init, includeRegex, labelOf);
      assert forall j :: 0 <= j < |init| ==> init[j] == files[j];
      if Frames(init, includeRegex, labelOf).Err? {
        var j :| 0 <= j < |init| && labelOf(init[j].path).Err?;
        assert labelOf(files[j].path).Err?;
      }
    }
  }

  /** When they succeed, frame j is file j's kept rows tagged with file j's key. */
  lemma {:induction false} FramesSpec(files: seq<CsvFile>, includeRegex: Option<string -> bool>, labelOf: Labeller)
    requires Frames(files, includeRegex, labelOf).Ok?
    ensures FramesOf(files, includeRegex, labelOf, Frames(files, includeRegex, labelOf).value)
  {
    FramesOk(files, includeRegex, labelOf);
    if files != [] {
      var init := files[..|files| - 1];
      var last := files[|files| - 1];
      assert Frames(init, includeRegex, labelOf).Ok?;
      FramesSpec(init, includeRegex, labelOf);
      var frames := Frames(init, includeRegex, labelOf).value;
      assert Frames(files, includeRegex, labelOf).value == frames + [Frame(last, includeRegex, labelOf).value];
      assert forall j :: 0 <= j < |init| ==> init[j] == files[j];
    }
  }

  lemma {:induction false} FramesErrorIsLabel(files: seq<CsvFile>, includeRegex: Option<string -> bool>, labelOf: Labeller)
    requires Frames(files, includeRegex, labelOf).Err?
    ensures exists j :: 0 <= j < |files| && labelOf(files[j].path) == Err(Frames(files, includeRegex, labelOf).error)
  {
    var init := files[..|files| - 1];
    if Frames(init, includeRegex, labelOf).Err? {
      FramesErrorIsLabel(init, includeRegex, labelOf);
      var j :| 0 <= j < |init| && labelOf(init[j].path) == Err(Frames(init, includeRegex, labelOf).error);
      assert init[j] == files[j];
    } else {
      assert labelOf(files[|files| - 1].path) == Err(Frames(files, includeRegex, labelOf).error);
    }
  }

  /** Aggregation raises exactly when the file list is empty (NoFilesLoaded) or
      some file's path carries no label (the LabelNotFound of that path); a
      filter that keeps no row at all is not an error. */
  lemma AggregateFails(files: seq<CsvFile>, includeRegex: Option<string -> bool>)
    ensures Aggregate(files, includeRegex).Err? <==>
      files == [] || exists j :: 0 <= j < |files| && LabelOfPath(files[j].path).Err?
    ensures Aggregate(files, includeRegex) == Err(NoFilesLoaded) <==> files == []
    ensures Aggregate(files, includeRegex).Err? && files != [] ==>
      exists j :: 0 <= j < |files| && Aggregate(files, includeRegex).error == LabelNotFound(files[j].path)
  {
    FramesOk(files, includeRegex, LabelOfPath);
    if Frames(files, includeRegex, LabelOfPath).Ok? {
      FramesSpec(files, includeRegex, LabelOfPath);
    } else {
      FramesErrorIsLabel(files, includeRegex, LabelOfPath);
    }
  }

  /** Where each row of the long-form table comes from: row n is row k of the
      kept rows of file j, tagged with file j's key, at position
      (rows kept from the files before j) + k.  Files are taken in order and
      rows within a file in order. */
  lemma AggregateRowOrigin(files: seq<CsvFile>, includeRegex: Option<string -> bool>, n: nat)
    requires Aggregate(files, includeRegex).Ok?
    requires n < |Aggregate(files, includeRegex).value.rows|
    ensures exists j, k :: (0 <= j < |files| && 0 <= k < |Kept(files[j].rows, includeRegex)|
      && LabelOfPath(files[j].path).Ok?
      && n == KeptBefore(files, includeRegex, j) + k
      && Aggregate(files, includeRegex).value.rows[n] == Tag(LabelOfPath(files[j].path).value, Kept(files[j].rows, includeRegex)[k]))
  {
    FramesSpec(files, includeRegex, LabelOfPath);
    var frames := Frames(files, includeRegex, LabelOfPath).value;
    assert frames[..|files|] == frames;
    ConcatOrigin(files, includeRegex, LabelOfPath, frames, |files|, n);
  }

  lemma {:induction false} ConcatOrigin(files: seq<CsvFile>, includeRegex: Option<string -> bool>, labelOf: Labeller,
                                        frames: seq<seq<TaggedRow>>, m: nat, n: nat)
    requires m <= |files| && FramesOf(files, includeRegex, labelOf, frames)
    requires n < |Concat(frames[..m])|
    ensures exists j, k :: (0 <= j < m && 0 <= k < |Kept(files[j].rows, includeRegex)|
      && labelOf(files[j].path).Ok?
      && n == KeptBefore(files, includeRegex, j) + k
      && Concat(frames[..m])[n] == Tag(labelOf(files[j].path).value, Kept(files[j].rows, includeRegex)[k]))
  {
    var init := frames[..m - 1];
    assert frames[..m][..m - 1] == init;
    assert Concat(frames[..m]) == Concat(init) + frames[m - 1];
    ConcatLength(files, includeRegex, labelOf, frames, m - 1);
    if n < |Concat(init)| {
      ConcatOrigin(files, includeRegex, labelOf, frames, m - 1, n);
    } else {
      var k := n - |Concat(init)|;
      assert Concat(frames[..m])[n] == frames[m - 1][k];
      assert n == KeptBefore(files, includeRegex, m - 1) + k;
    }
  }

  lemma {:induction false} ConcatLength(files: seq<CsvFile>, includeRegex: Option<string -> bool>, labelOf: Labeller,
                                        frames: seq<seq<TaggedRow>>, m: nat)
    requires m <= |files| && FramesOf(files, includeRegex, labelOf, frames)
    ensures |Concat(frames[..m])| == KeptBefore(files, includeRegex, m)
  {
    if m > 0 {
      assert frames[..m][..m - 1] == frames[..m - 1];
      assert |frames[m - 1]| == |Kept(files[m - 1].rows, includeRegex)|;
      ConcatLength(files, includeRegex, labelOf, frames, m - 1);
    }
  }

  /** The long-form table has as many rows as survive the filter, file by file. */
  lemma AggregateRowCount(files: seq<CsvFile>, includeRegex: Option<string -> bool>)
    requires Aggregate(files, includeRegex).Ok?
    ensures |Aggregate(files, includeRegex).value.rows| == KeptBefore(files, includeRegex, |files|)
  {
    FramesSpec(files, includeRegex, LabelOfPath);
    var frames := Frames(files, includeRegex, LabelOfPath).value;
    ConcatLength(files, includeRegex, LabelOfPath, frames, |files|);
    assert frames[..|files|] == frames;
  }

  /** Kept rows are exactly the rows whose name the pattern finds, in order. */
  lemma {:induction false} KeptSpec(rows: seq<Row>, includeRegex: Option<string -> bool>)
    ensures forall r :: r in Kept(rows, includeRegex) <==> r in rows && (includeRegex.None? || includeRegex.value(r.name))
    ensures includeRegex.None? ==> Kept(rows, includeRegex) == rows
  {
    if rows != [] {
      KeptSpec(rows[1..], includeRegex);
      assert rows == [rows[0]] + rows[1..];
    }
  }

  // -------------------------------------------------------------- selection

  function Names(rows: seq<TaggedRow>): (names: seq<string>)
    ensures |names| == |rows| && forall k :: 0 <= k < |rows| ==> names[k] == rows[k].name
  {
    seq(|rows|, k requires 0 <= k < |rows| => rows[k].name)
  }

  function Selected(rows: seq<TaggedRow>, matches: string -> bool): seq<TaggedRow>
  {
    if rows == [] then []
    else (if matches(rows[0].name) then [rows[0]] else []) + Selected(rows[1..], matches)
  }

  const NameOrder: (string, string) -> bool := (a: string, b: string) => LexLess(a, b)

  /** What select_rows returns or raises: the rows whose name the pattern
      finds, or NoMatch listing the first ten distinct names in sorted order. */
  function SelectRows(t: Table, matches: string -> bool): Result<Table>
  {
    var sel := Selected(t.rows, matches);
    if sel == [] then Err(NoMatch(Take(SortedSet(Names(t.rows), NameOrder), 10)))
    else Ok(Table(t.columns, sel))
  }

  /** The selection keeps exactly the matching rows, with their multiplicity,
      and splits over concatenation, so their order is the table's order. */
  lemma {:induction false} SelectedSpec(rows: seq<TaggedRow>, matches: string -> bool)
    ensures forall r :: multiset(Selected(rows, matches))[r] == if matches(r.name) then multiset(rows)[r] else 0
    ensures forall r :: r in Selected(rows, matches) <==> r in rows && matches(r.name)
  {
    if rows != [] {
      SelectedSpec(rows[1..], matches);
      assert rows == [rows[0]] + rows[1..];
    }
  }

  lemma {:induction false} SelectedAppend(a: seq<TaggedRow>, b: seq<TaggedRow>, matches: string -> bool)
    ensures Selected(a + b, matches) == Selected(a, matches) + Selected(b, matches)
  {
    if a != [] {
      assert (a + b)[1..] == a[1..] + b;
      SelectedAppend(a[1..], b, matches);
    } else {
      assert a + b == b;
    }
  }

  /** Selection raises exactly when no row's name is found by the pattern. */
  lemma SelectRowsFails(t: Table, matches: string -> bool)
    ensures SelectRows(t, matches).Err? <==> forall k :: 0 <= k < |t.rows| ==> !matches(t.rows[k].name)
  {
    SelectedSpec(t.rows, matches);
    if Selected(t.rows, matches) != [] {
      var r := Selected(t.rows, matches)[0];
      assert r in Selected(t.rows, matches);
    } else {
      forall k | 0 <= k < |t.rows| ensures !matches(t.rows[k].name) {
        assert t.rows[k] in t.rows;
      }
    }
  }

  /** The names a failed selection reports: at most ten, distinct and sorted,
      all present in the table, and the least ones: a name left out comes
      after all ten listed. */
  lemma NoMatchExamples(t: Table, matches: string -> bool)
    requires SelectRows(t, matches).Err?
    ensures SelectRows(t, matches).error.NoMatch?
    ensures var e := SelectRows(t, matches).error.examples;
      && |e| <= 10
      && StrictlySorted(e, NameOrder)
      && (forall k :: 0 <= k < |e| ==> e[k] in Names(t.rows))
      && (forall n :: n in Names(t.rows) && n !in e ==> |e| == 10 && forall k :: 0 <= k < 10 ==> LexLess(e[k], n))
  {
    LexLessIsStrictTotalOrder();
    var s := SortedSet(Names(t.rows), NameOrder);
    SortedSetSpec(Names(t.rows), NameOrder);
    var e := Take(s, 10);
    assert e == SelectRows(t, matches).error.examples;
    forall k | 0 <= k < |e| ensures e[k] in Names(t.rows) {
      assert e[k] == s[k] && s[k] in s;
    }
    forall n | n in Names(t.rows) && n !in e ensures |e| == 10 && forall k :: 0 <= k < 10 ==> LexLess(e[k], n) {
      var i :| 0 <= i < |s| && s[i] == n;
      if i < 10 && i < |s| {
        assert |e| == 10 || e == s;
        assert e[i] == n;
      }
      assert |s| > 10;
      forall k | 0 <= k < 10 ensures LexLess(e[k], n) {
        assert e[k] == s[k];
      }
    }
  }
}
