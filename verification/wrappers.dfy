/** Wrappers shared by the other modules: `Option` for Python's
    `None`-or-value results and `Result` for code paths that may raise an
    exception. */
module Wrappers {

  datatype Option<+T> = None | Some(value: T)

  datatype Result<+R, +E> = Success(value: R) | Failure(error: E)

  /** `rs[i]` is the first failure of `rs`, with error `e`. */
  ghost predicate FirstFailure<R, E>(rs: seq<Result<R, E>>, i: int, e: E) {
    && 0 <= i < |rs| && rs[i].Failure? && rs[i].error == e
    && forall j :: 0 <= j < i ==> rs[j].Success?
  }

  /** The values of `rs` in order when all of them succeeded, or else the
      error of the first failure: a loop that raises at its first bad item. */
  function AllSuccesses<R, E>(rs: seq<Result<R, E>>): (r: Result<seq<R>, E>)
    ensures r.Success? <==> forall i :: 0 <= i < |rs| ==> rs[i].Success?
    ensures r.Success? ==> |r.value| == |rs| && forall i :: 0 <= i < |rs| ==> r.value[i] == rs[i].value
    ensures r.Failure? ==> exists i :: FirstFailure(rs, i, r.error)
  {
    if |rs| == 0 then Success([])
    else if rs[0].Failure? then
      assert FirstFailure(rs, 0, rs[0].error);
      Failure(rs[0].error)
    else
      var rest := AllSuccesses(rs[1..]);
      assert forall i :: 0 < i < |rs| ==> rs[1..][i - 1] == rs[i];
      if rest.Failure? then
        assert exists i :: FirstFailure(rs, i, rest.error) by {
          var i :| FirstFailure(rs[1..], i, rest.error);
          assert FirstFailure(rs, i + 1, rest.error);
        }
        Failure(rest.error)
      else
        Success([rs[0].value] + rest.value)
  }
}
