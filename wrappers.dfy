/** Option and Result, the two failure-compatible wrappers the model uses.
    A Python exception that ends a script becomes an `Err` carrying its message. */
module Wrappers {

  datatype Option<+T> = None | Some(value: T)

  datatype Result<+T> = Ok(value: T) | Err(msg: string)

  /** The value of a result, or `otherwise` for an error. */
  function ValueOr<T>(r: Result<T>, otherwise: T): T {
    if r.Ok? then r.value else otherwise
  }

  /** `f` applied to each element in order; the first error ends it. */
  function MapAll<A, B>(xs: seq<A>, f: A -> Result<B>): (r: Result<seq<B>>)
    ensures r.Ok? ==> |r.value| == |xs|
    ensures r.Ok? ==> forall i :: 0 <= i < |xs| ==> f(xs[i]) == Ok(r.value[i])
    ensures r.Err? ==> exists i :: 0 <= i < |xs| && f(xs[i]).Err?
    decreases |xs|
  {
    if |xs| == 0 then Ok([])
    else
      match f(xs[0])
      case Err(e) => Err(e)
      case Ok(y) =>
        match MapAll(xs[1..], f)
        case Err(e) =>
          assert exists i :: 0 <= i < |xs| && f(xs[i]).Err? by {
            var i :| 0 <= i < |xs[1..]| && f(xs[1..][i]).Err?;
            assert xs[i + 1] == xs[1..][i];
          }
          Err(e)
        case Ok(ys) => Ok([y] + ys)
  }
}
