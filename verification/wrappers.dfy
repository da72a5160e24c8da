/** Option and Result types for the operations of the toolkit.  A Python
    exception, or a GUI callback that shows an error dialog and returns
    without output, becomes an `Err` carrying the kind of failure. */
module Wrappers {

  datatype Option<+T> = None | Some(value: T)

  /** The ways an operation of the toolkit ends without a value. */
  datatype Failure =
    | ValueError
    | KeyError
    | IndexError
    | ZeroDivisionError
    /** `next` on a generator that yields nothing */
    | StopIteration
    /** the GUI shows an error dialog and returns without output */
    | Rejected

  datatype Result<+T> = Ok(value: T) | Err(failure: Failure)

  /** The values of a run of steps, or the first failure among them. */
  function Collect<T>(rs: seq<Result<T>>): (r: Result<seq<T>>)
    ensures r.Ok? <==> forall j :: 0 <= j < |rs| ==> rs[j].Ok?
    ensures r.Ok? ==> |r.value| == |rs| && forall j :: 0 <= j < |rs| ==> r.value[j] == rs[j].value
    ensures r.Err? ==> exists j :: 0 <= j < |rs| && rs[j] == Err(r.failure) && forall k :: 0 <= k < j ==> rs[k].Ok?
  {
    if |rs| == 0 then Ok([])
    else if rs[0].Err? then Err(rs[0].failure)
    else
      match Collect(rs[1..])
      case Err(e) =>
        var j :| 0 <= j < |rs[1..]| && rs[1..][j] == Err(e) && forall k :: 0 <= k < j ==> rs[1..][k].Ok?;
        assert rs[j + 1] == Err(e) && forall k :: 0 <= k < j + 1 ==> rs[k].Ok?;
        Err(e)
      case Ok(tail) => Ok([rs[0].value] + tail)
  }
}
