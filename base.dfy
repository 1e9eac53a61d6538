/** Values shared by every stage of the experiment-grid analysis: optional
    numbers (a missing matrix cell), results, and the errors the analysis
    raises. */
module Base {

  datatype Option<+T> = None | Some(value: T)

  datatype Result<+T> = Ok(value: T) | Err(error: Error)

  /** The exceptions the analysis raises, one constructor per raise site. */
  datatype Error =
    | LabelNotFound(path: seq<string>)          // no ancestor directory is named like 33_10
    | NoFilesLoaded                             // aggregation was given no files
    | NoMatch(examples: seq<string>)            // row selection kept nothing
    | MetricNotFound(metric: string)            // the metric is not a column
    | KeyMissing(iters: int, history: int)      // a superposition coordinate is not an axis value
    | EmptyMatrix                               // argmin/argmax of a matrix with no filled cell

  /** Subtraction where a missing operand makes the result missing (NaN propagation). */
  function Minus(a: Option<real>, b: Option<real>): (r: Option<real>)
    ensures r.Some? <==> a.Some? && b.Some?
    ensures r.Some? ==> r.value + b.value == a.value
  {
    if a.Some? && b.Some? then Some(a.value - b.value) else None
  }

  /** Addition where a missing operand makes the result missing (NaN propagation). */
  function Plus(a: Option<real>, b: Option<real>): (r: Option<real>)
    ensures r.Some? <==> a.Some? && b.Some?
    ensures r.Some? ==> r.value - b.value == a.value
  {
    if a.Some? && b.Some? then Some(a.value + b.value) else None
  }
}
