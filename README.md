# Experiment-grid analysis and appendix helpers, in Dafny

This project models the analysis core of a parameter-sweep study of a pose-graph
odometry pipeline. Every run of the sweep is named by two integers, an iteration
count and a history length (a directory such as `33_10`), and writes a metrics
table. The analysis proceeds in five steps:

- It reads each table's key off its directory names.
- It concatenates the tables into one long-form table.
- It narrows the table to one measurement series.
- It pivots one metric into an iterations × history matrix of means.
- It analyses that matrix three ways: best and worst cells with row and column means,
  a four-point superposition check, and the two-way additive decomposition
  `M(i,h) = mu + alpha_i + beta_h + gamma_ih`.

The model also covers the string helpers of the two LaTeX appendix generators:

- LaTeX escaping;
- label slugs;
- the figure-path prefix and the comma-separated filter options;
- the three plot file-name parsers;
- the figure block;
- the experiment-name sanitiser.

Modules, one per file:

- `Base` (`base.dfy`): optional numbers, where a missing matrix cell is NaN in the source. Results, and one error constructor per raise site.
- `Ordering` (`ordering.dfy`): `sorted(set(...))` as a strictly increasing sequence, generic in the order.
- `Text` (`text.dfy`): decimal digits, split and join, per-character replacement, strip, and `re.sub` of a character-class run.
- `Labels` (`labels.dfy`): `LABEL_RE`, `ExpKey` and `parse_label_from_path`. The last is a method with the source's early-return loop over the parents.
- `Tables` (`tables.dfy`): `aggregate_experiments` (a method looping over the files) and `select_rows`.
- `Grids` (`grids.dfy`): `pivot_metric`, and the sums and means over the matrix.
- `Effects` (`effects.dfy`): `effect_summary_table` and `superposition_check`.
- `Decomposition` (`decomposition.dfy`): `two_way_decomposition`. It is a method that fills the gamma matrix cell by cell into an `array2` in the source's nested loops.
- `PgAppendix` (`pg_appendix.dfy`): `tex_escape` and `tex_label`, the `--figprefix` normalisation and the `--only_*` sets of `appendix_pg_results.py`.
- `TrajAppendix` (`traj_appendix.dfy`): the helpers of `appendix_traj_plots.py`:
  - `tex_escape`, a method with the source's loop over the replacement table;
  - `parse_by_iter_name`, `parse_by_hist_name` and `parse_per_run_name`;
  - `make_figure_block`;
  - the `safe_exp` sanitiser.

Metric values are `real`, a missing cell is `None`, and a regular-expression
filter is an abstract predicate on the row name. A path is the list of its
resolved components below the root.

## Model

| member | source | states |
|---|---|---|
| Labels.MatchLabelSound | Experiments/analyze.py:34 | a directory name the label pattern accepts is digits, `_` or `-`, digits in full, and the key holds the values of the two digit groups |
| Labels.MatchLabelComplete | Experiments/analyze.py:34 | every name spelled digits, separator, digits is accepted with those two values, leading zeros included |
| Labels.NameRoundTrip | Experiments/analyze.py:37-44 | the canonical label `"<iters>_<history>"` of a key, and its dash-separated variant, parse back to the key |
| Labels.FirstMatchSpec | Experiments/analyze.py:55-61 | the walk stops at the first matching name: every earlier name fails to match |
| Labels.FirstLabelSpec | Experiments/analyze.py:55-61 | the key found is that of the nearest matching ancestor, and there is none exactly when no ancestor matches |
| Labels.ParseLabelFromPath | Experiments/analyze.py:47-65 | the loop over the parents returns the key of the nearest labelled ancestor, or LabelNotFound with the path when none is labelled |
| Labels.NestedLayout | Experiments/analyze.py:52-61 | a file anywhere below a directory named after k, with no labelled directory in between, gets key k; the file's own name plays no part |
| Tables.AggregateExperiments | Experiments/analyze.py:80-109 | the loop over the files returns the aggregate: every kept row tagged with its file's key, concatenated, or the first label error, or the empty-list error |
| Tables.FramesOk | Experiments/analyze.py:93-103 | the per-file frames are built exactly when every file's path carries a label |
| Tables.FramesSpec | Experiments/analyze.py:93-103 | frame j is file j's kept rows, each tagged with file j's key |
| Tables.FramesErrorIsLabel | Experiments/analyze.py:93 | a failed aggregation fails with the label error of one of the files |
| Tables.PrefixErrorPersists | Experiments/analyze.py:92-93 | once a file's label is missing, the files after it do not change the error |
| Tables.AggregateFails | Experiments/analyze.py:105-106 | aggregation raises exactly when the list of files is empty or a path has no label; a filter that keeps no row is not an error |
| Tables.AggregateRowOrigin | Experiments/analyze.py:93-108 | row n of the long table is row k of file j's kept rows with file j's key, at offset (rows kept before file j) + k: files in order, rows in order |
| Tables.AggregateRowCount | Experiments/analyze.py:108 | the long table has exactly as many rows as survive the filter, file by file |
| Tables.KeptSpec | Experiments/analyze.py:96-97 | the rows kept are exactly those whose name the pattern finds; without a pattern every row is kept |
| Tables.SelectedSpec | Experiments/analyze.py:124-125 | selection keeps exactly the matching rows with their multiplicity |
| Tables.SelectedAppend | Experiments/analyze.py:124-125 | selection splits over concatenation, so the rows keep the table's order |
| Tables.SelectRowsFails | Experiments/analyze.py:126-130 | selection raises exactly when no row's name matches |
| Tables.NoMatchExamples | Experiments/analyze.py:127-130 | the error lists at most ten names, strictly sorted and present in the table, and they are the least ten: a name left out sorts after all of them |
| Ordering.SortedSetSpec | Experiments/analyze.py:144 | the sorted distinct values are strictly increasing and are exactly the values given |
| Grids.Pivot | Experiments/analyze.py:134-145 | pivoting fails with MetricNotFound exactly when the metric is not a column, and otherwise yields a well-formed matrix |
| Grids.PivotAxes | Experiments/analyze.py:143-144 | both axes are strictly increasing and hold exactly the iterations (histories) of the rows whose metric is present |
| Grids.PivotCell | Experiments/analyze.py:143 | a cell is present exactly when some row of its group has the metric, and then its value times the group's size is the group's sum |
| Grids.GroupSpec | Experiments/analyze.py:143 | a group lists the metric value of every row with that (iters, history) and the metric present, one per row and in row order (an increasing map onto those rows), so a repeated value counts as often as it occurs; it holds exactly those values, and is empty exactly when there is no such row |
| Grids.Mean | Experiments/analyze.py:143 | the mean is missing exactly for no value |
| Grids.MeanTimesCount | Experiments/analyze.py:143 | the mean times the number of values is their sum |
| Grids.RowMeanPresent | Experiments/analyze.py:223 | a row mean is present exactly when its row has a filled cell |
| Grids.ColMeanPresent | Experiments/analyze.py:224 | a column mean is present exactly when its column has a filled cell |
| Effects.StackSpec | Experiments/analyze.py:211-212 | the stacked matrix lists exactly the filled cells, in row-major order |
| Effects.ArgMinSpec | Experiments/analyze.py:211 | argmin picks a least value, and every earlier one is strictly greater |
| Effects.ArgMaxSpec | Experiments/analyze.py:212 | argmax picks a greatest value, and every earlier one is strictly smaller |
| Effects.EffectSummaryFails | Experiments/analyze.py:211-212 | the summary raises exactly when every cell is missing |
| Effects.EffectSummaryBest | Experiments/analyze.py:211-216 | the best value is the cell at the reported labels, is at most every filled cell, and ties go to the first cell in row-major order |
| Effects.EffectSummaryWorst | Experiments/analyze.py:212-219 | the worst value is the cell at the reported labels, is at least every filled cell, and ties go to the first cell in row-major order |
| Effects.ItersMeansSpec | Experiments/analyze.py:223-231 | one mean per iterations row, labelled, present exactly when the row has a filled cell and then the mean of its filled cells |
| Effects.HistoryMeansSpec | Experiments/analyze.py:224-232 | one mean per history column, labelled, present exactly when the column has a filled cell and then the mean of its filled cells |
| Effects.Lookup | Experiments/analyze.py:259-261 | a lookup raises KeyError exactly when either label is not on its axis, and otherwise yields the cell, possibly missing |
| Effects.PairLabel | Experiments/analyze.py:272-275 | a coordinate's label is the key's canonical name and parses back to the coordinate |
| Effects.SuperpositionCheck | Experiments/analyze.py:244-283 | raises KeyError for the first of baseline, a, b, ab missing from an axis; otherwise the four values are the cells at those coordinates and the four labels their `"<i>_<h>"` names, with the fixed note; expected = m_a + m_b − m_baseline and interaction = m_ab − expected, missing when an input is; interaction is 0 exactly when m_ab = m_a + m_b − m_baseline |
| Effects.SuperpositionExample | Experiments/analyze.py:263-269 | on the grid with iterations 0, 10, histories 1, 10 and cells 5, 3 / 4, 1.5, with baseline `0_1`, the expectation for `10_10` is 2 and the interaction −0.5 |
| Decomposition.TwoWayDecomposition | Experiments/analyze.py:286-327 | the nested loops fill gamma and return the four blocks of the decomposition |
| Decomposition.DecompositionIdentity | Experiments/analyze.py:296-303 | for every filled cell mu + alpha_i + beta_h + gamma_ih equals the cell; gamma is missing exactly where the cell is |
| Decomposition.AlphaAt | Experiments/analyze.py:296-297 | the main effect of an iterations row is present exactly when the row has a filled cell, and then mu plus the effect, times the row's number of filled cells, is their sum |
| Decomposition.BetaAt | Experiments/analyze.py:296-298 | the main effect of a history column is present exactly when the column has a filled cell, and then mu plus the effect, times the column's number of filled cells, is their sum |
| Decomposition.AlphaBlock | Experiments/analyze.py:306-307 | the alpha block has one line per iterations value, in axis order and under that label; the effect is missing exactly for a row with no filled cell, and otherwise is the row mean less mu |
| Decomposition.BetaBlock | Experiments/analyze.py:308-309 | the beta block has one line per history value, in axis order and under that label; the effect is missing exactly for a column with no filled cell, and otherwise is the column mean less mu |
| Decomposition.DecomposeGamma | Experiments/analyze.py:312-313 | the tidy gamma block lists the residuals of the filled cells in row-major order under their labels |
| Decomposition.TidyGammaSound | Experiments/analyze.py:312-313 | every line of the gamma block is the residual of a filled cell |
| Decomposition.TidyGammaComplete | Experiments/analyze.py:312-313 | every filled cell's residual appears in the gamma block |
| Decomposition.TidyGamma | Experiments/analyze.py:312-313 | the gamma block holds exactly the residuals of the filled cells, missing cells dropped |
| Decomposition.AlphaSumZero | Experiments/analyze.py:296-297 | on a matrix with no missing cell the iterations effects sum to zero |
| Decomposition.BetaSumZero | Experiments/analyze.py:296-298 | on a matrix with no missing cell the history effects sum to zero |
| Decomposition.Centering | Experiments/analyze.py:296-298 | on a matrix with no missing cell mean(alpha) = mean(beta) = 0 |
| Decomposition.ExampleComponents | Experiments/analyze.py:296-303 | on that grid mu = 3.375, the effect of iterations 0 is 0.625, the effect of history 1 is 1.125, and the residual at (0, 1) is −0.125 |
| Decomposition.DecompositionExample | Experiments/analyze.py:286-327 | the returned blocks for that grid carry those values under their labels, two alpha rows, two beta rows and four residuals |
| Text.SubRunsChars | Experiments/appendix_pg_results.py:27 | a run substitution yields only class characters and the replacement, and is empty exactly when its input is |
| Text.SubRunsNoDoubled | Experiments/appendix_pg_results.py:27 | a run substitution never writes the replacement twice in a row |
| Text.SubRunsFilter | Experiments/appendix_pg_results.py:27 | a run substitution keeps every class character, in order |
| Text.SubRunsFixed | Experiments/appendix_pg_results.py:28 | a run substitution leaves text with no doubled replacement and only class characters unchanged |
| Text.SplitJoin | Experiments/appendix_pg_results.py:112 | splitting comma-joined comma-free items gives the items back |
| Text.JoinSplit | Experiments/appendix_traj_plots.py:42 | joining the pieces of a split gives the text back |
| PgAppendix.EscapeChar | Experiments/appendix_pg_results.py:13-21 | each special character becomes a code starting with a backslash; every other character stays as it is |
| PgAppendix.TexEscapeBackslash | Experiments/appendix_pg_results.py:13-19 | a lone backslash comes out as `\textbackslash\{\}`, because the brace steps run after the backslash step |
| PgAppendix.TexEscapeUnderscorePercent | Experiments/appendix_pg_results.py:14-15 | `_` and `%` come out as `\_` and `\%` |
| PgAppendix.TexEscapeAmpersandHash | Experiments/appendix_pg_results.py:16-17 | `&` and `#` come out as `\&` and `\#` |
| PgAppendix.TexEscapeBraces | Experiments/appendix_pg_results.py:18-19 | a lone brace is escaped once |
| PgAppendix.TexEscapeCaretTilde | Experiments/appendix_pg_results.py:20-21 | `^` and `~` come out as `\^{}` and `\~{}`; their braces are not escaped again |
| PgAppendix.TexEscapeOne | Experiments/appendix_pg_results.py:11-22 | the replace chain applied to one character gives that character's code |
| PgAppendix.TexEscapeIsPerChar | Experiments/appendix_pg_results.py:11-22 | the nine chained replacements are one per-character substitution |
| PgAppendix.TexEscapePlain | Experiments/appendix_pg_results.py:11-22 | text with none of the nine special characters is unchanged |
| PgAppendix.TexEscapeRoundTrip | Experiments/appendix_pg_results.py:11-22 | escaping loses nothing: reading the output back gives the input |
| PgAppendix.TexEscapeFixedBackslash | Experiments/appendix_pg_results.py:13 | the corrected escape writes a backslash as `\textbackslash{}` |
| PgAppendix.TexEscapeFixedAgrees | Experiments/appendix_pg_results.py:11-22 | on text without a backslash the corrected escape equals the source's |
| PgAppendix.TexEscapeFixedRoundTrip | Experiments/appendix_pg_results.py:11-22 | the corrected escape loses nothing, backslashes included |
| PgAppendix.SqueezeRedundant | Experiments/appendix_pg_results.py:27-28 | the first substitution leaves no two dashes in a row, so the second changes nothing and the text is letters, digits and single dashes |
| PgAppendix.TexLabelShape | Experiments/appendix_pg_results.py:25-29 | a label has at most 90 characters, all in `[a-z0-9-]`, no `--`, and does not start with `-` |
| PgAppendix.TexLabelKeepsAlnum | Experiments/appendix_pg_results.py:26-28 | under the cap, the label keeps every lower-cased letter and digit of the input, in order |
| PgAppendix.TexLabelOfLabelChars | Experiments/appendix_pg_results.py:26-29 | on text made of label characters only the strip and the cut act |
| PgAppendix.TexLabelOfLabelText | Experiments/appendix_pg_results.py:25-29 | text already shaped like a label is only cut to 90 characters |
| PgAppendix.TexLabelIdempotent | Experiments/appendix_pg_results.py:25-29 | a label that does not end in `-` is its own label |
| PgAppendix.TexLabelTrailingDash | Experiments/appendix_pg_results.py:28 | a label with one dash appended loses the dash again |
| PgAppendix.TexLabelCutLeavesDash | Experiments/appendix_pg_results.py:28-29 | 89 letters or digits, a dash and one more give a label ending in `-` (the cut comes after the strip), whose own label drops that dash |
| PgAppendix.NormalizePrefixSpec | Experiments/appendix_pg_results.py:108-110 | the prefix is kept and at most a `/` added; empty stays empty; a non-empty result ends in `/`; normalising twice is normalising once |
| PgAppendix.OnlySetNames | Experiments/appendix_pg_results.py:112-114 | every filter name is non-empty, comma-free and has no whitespace at either end |
| PgAppendix.OnlySetJoin | Experiments/appendix_pg_results.py:112-114 | trimmed comma-free names joined by commas give back exactly the set of those names |
| TrajAppendix.TexEscape | Experiments/appendix_traj_plots.py:15-33 | the loop applies the ten replacements in the table's order, backslash last |
| TrajAppendix.AsWrittenSteps | Experiments/appendix_traj_plots.py:19-32 | the loop is the nine escapes followed by the backslash replacement |
| TrajAppendix.TexEscapeAsWrittenPlain | Experiments/appendix_traj_plots.py:15-33 | text with none of the ten special characters is unchanged |
| TrajAppendix.TexEscapeAsWrittenBackslashes | Experiments/appendix_traj_plots.py:29-32 | every backslash of the output begins `\textbackslash{}` |
| TrajAppendix.TexEscapeAsWrittenMangles | Experiments/appendix_traj_plots.py:20-32 | `& % $ # _ { }` each come out as `\textbackslash{}` followed by the bare character |
| TrajAppendix.TexEscapeAsWrittenManglesWords | Experiments/appendix_traj_plots.py:27-32 | `~` and `^` come out as `\textbackslash{}textasciitilde{}` and `\textbackslash{}textasciicircum{}`: the word codes are spoiled too |
| TrajAppendix.TexEscapeFixedAgrees | Experiments/appendix_traj_plots.py:15-33 | on text whose only special characters are backslashes the corrected escape equals the source's |
| TrajAppendix.TexEscapeFixedPlain | Experiments/appendix_traj_plots.py:15-33 | the corrected escape leaves text with no special character unchanged |
| TrajAppendix.TexEscapeFixedRoundTrip | Experiments/appendix_traj_plots.py:19-30 | the corrected escape loses nothing: reading it back gives the caption |
| TrajAppendix.ParseSweepComplete | Experiments/appendix_traj_plots.py:41-51 | every name head, digits, mid, two or three `_`-free pieces, `.png` parses to the number, mode, alignment and view |
| TrajAppendix.ParseSweepSound | Experiments/appendix_traj_plots.py:41-51 | every name that parses has that shape, with pieces that are non-empty and `_`-free |
| TrajAppendix.SweepNameRoundTrip | Experiments/appendix_traj_plots.py:36-69 | `iter_<n>_histories_vs_gt_…png` and `hist_<n>_iters_vs_gt_…png` parse back to (n, mode, align, view), view missing when absent |
| TrajAppendix.ParseSweepNeedsPng | Experiments/appendix_traj_plots.py:41-46 | a name not ending in `.png` is not parsed |
| TrajAppendix.ParseSweepNeedsAlign | Experiments/appendix_traj_plots.py:41-46 | a name with only one piece after the middle part is not parsed |
| TrajAppendix.SplitLastSpec | Experiments/appendix_traj_plots.py:77 | a cut at the last separator splits the text around it, with no separator after it; there is none exactly when the separator is absent |
| TrajAppendix.PerRunRoundTrip | Experiments/appendix_traj_plots.py:72-80 | `exp_zed_pg_vs_gt_<mode>_<align>.png` parses back to (exp, mode, align), whatever exp contains |
| TrajAppendix.PerRunSound | Experiments/appendix_traj_plots.py:77-80 | every name that parses is the non-empty exp, the marker, mode and alignment, both non-empty and `_`-free |
| TrajAppendix.PerRunNeedsAlign | Experiments/appendix_traj_plots.py:77-79 | a per-run name missing its alignment piece is not parsed |
| TrajAppendix.MakeFigureBlockShape | Experiments/appendix_traj_plots.py:83-94 | the block starts with `\begin{figure}[H]`, ends with `\end{figure}` and a blank line, holds prefix + path verbatim after the `\includegraphics` brace and the caption as tex_escape writes it after `\caption{`; a caption without special characters stands there verbatim |
| TrajAppendix.MakeFigureBlockLabel | Experiments/appendix_traj_plots.py:92 | the label stands verbatim just before the closing brace of `\label{` |
| TrajAppendix.MakeFigureBlockMangles | Experiments/appendix_traj_plots.py:91 | for the caption `_` the block holds `\textbackslash{}_` where the caption goes, which reads back as a backslash and an underscore, not as the caption |
| TrajAppendix.MakeFigureBlockFixedCaption | Experiments/appendix_traj_plots.py:91 | with the corrected escape, the caption can be read back out of the block |
| TrajAppendix.SafeExpSpec | Experiments/appendix_traj_plots.py:214 | the sanitised name has only ASCII letters, digits and single `_`, is empty only for an empty name, keeps every letter and digit in order, and is its own sanitised name |

## Left out

- File I/O is not modelled. That covers `load_one_csv`, the directory walks and globbing, `Path.resolve()`, `os.path.relpath` and the writing of the LaTeX files. Rows arrive as in-memory records, and a path arrives resolved, as its components.
- The plotting functions and both `main` functions are not modelled (argument parsing, output directories, document assembly), except for the option handling listed in the table.
- `csv_to_tabular`, `add_figure_block` and the pick-one-file helpers are document generation over globbed files and are not modelled.
- Floating point is not modelled: values are exact reals and NaN is an absent value. Tolerances, rounding and `float()` conversions do not arise.
- The regular-expression engine is not modelled. `include_regex` and the `select_rows` pattern are arbitrary predicates on the name.
- MatchLabel, ParseSweepName and ParsePerRunName: names are assumed ASCII, with no trailing newline. So `\d` is `[0-9]`, and `$` does not match before a final newline.
- ParsePerRunName: `(.+)` in the source does not match a newline, and the model lets one through.
- Lower and TexLabel: lower-casing is limited to ASCII. Python's Unicode lower-casing is not modelled. (`str.strip()` in OnlySet removes every character `str.isspace()` accepts, as in Python.)
- Grids.Pivot requires the metric not to be one of the tag columns (`name`, `exp_label`, `iters`, `history`). What pandas does when such a column is pivoted is not modelled.
- The first-column rename in `load_one_csv` is not modelled: every row already carries its name.
- The discarded concatenation in `effect_summary_table` does nothing and is not modelled. Its three blocks are a record, not a frame with a `block` column. Likewise, the four blocks of `two_way_decomposition` (mu, alpha, beta and gamma), which the source concatenates into one frame with a `block` column, are the fields of the record `Decomposition`.
- The axis-anchored Gamma grid and the baseline delta/ratio comparison are not modelled. No file shown here computes them; they appear only as files the appendix picks up.
- Decomposition.Centering: mean(alpha) = mean(beta) = 0 is proved only for a matrix with no missing cell. With missing cells the row and column means weigh cells unequally, and the effects need not be centred.
- Grids.Mean: its contract states only when the mean is present. The value relation is Grids.MeanTimesCount, kept apart so that the nonlinear fact is used only where it is needed.

Where the behaviour of the code differs from how the analysis is usually described, the model follows the code:

- Aggregation raises only for an empty list of files. A filter that removes every row gives an empty table.
- Selection is a pattern search, not an exact match with a substring fallback.
- The superposition check raises only when a coordinate is not an axis value. A cell that is on the axes but missing propagates as a missing result.
- The row-name column is always the first column.

## Findings

| source | as written | input that shows it | evidently intended | confidence | as-written member | corrected member |
|---|---|---|---|---|---|---|
| Experiments/appendix_traj_plots.py:19-32 | the backslash replacement runs last, so it re-escapes the backslashes that the earlier replacements wrote | the caption `_` becomes `\textbackslash{}_`, which typesets as a backslash followed by a subscript error | each special character replaced once, `_` becoming `\_` | high, not executed | TrajAppendix.TexEscapeAsWrittenMangles | TrajAppendix.TexEscapeFixedRoundTrip |
| Experiments/appendix_pg_results.py:13-19 | the backslash replacement runs first, so the brace replacements escape the braces of `\textbackslash{}` | the text `\` becomes `\textbackslash\{\}`, which typesets as `\{}` | a backslash becoming `\textbackslash{}` | medium, not executed | PgAppendix.TexEscapeBackslash | PgAppendix.TexEscapeFixedRoundTrip |
