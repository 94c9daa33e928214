/** Optional values and results with an error message, for the draws that
    may or may not fire and for the operations that throw. */
module Wrappers {

  datatype Option<+T> = None | Some(value: T)

  /** The outcome of an operation that either returns a value or throws an
      exception with the given message. */
  datatype Result<+T> = Success(value: T) | Failure(error: string)

  /** Runs a list of operations that may throw and collects their values; the
      first failure is the failure of the whole. */
  function Collect<T>(rs: seq<Result<T>>): (r: Result<seq<T>>)
    ensures r.Success? <==> forall i :: 0 <= i < |rs| ==> rs[i].Success?
    ensures r.Success? ==> |r.value| == |rs| && forall i :: 0 <= i < |rs| ==> r.value[i] == rs[i].value
  {
    if |rs| == 0 then Success([])
    else if rs[0].Failure? then Failure(rs[0].error)
    else
      var rest := Collect(rs[1..]);
      if rest.Failure? then rest
      else
        assert forall i :: 1 <= i < |rs| ==> rs[i] == rs[1..][i - 1];
        Success([rs[0].value] + rest.value)
  }
}
