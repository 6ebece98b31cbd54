/** The optional value used for regular-expression matches that may fail. */
module Wrappers {

  datatype Option<+T> = None | Some(value: T)

  /** Adds `d` to a present length and keeps an absent one absent. */
  function Shift(o: Option<nat>, d: nat): (r: Option<nat>)
    ensures r.Some? <==> o.Some?
    ensures r.Some? ==> r.value == o.value + d
  {
    match o
    case None => None
    case Some(n) => Some(n + d)
  }
}
