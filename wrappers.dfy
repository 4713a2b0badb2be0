/** Optional values: the model's stand-in for Python's `None` and for an
    operation that raised an exception. */
module Wrappers {

  datatype Option<+T> = None | Some(value: T)

  /** All-or-nothing: `Some` of every value when no element is `None`
      (a Python `map` whose lambda may raise stops at the first failure). */
  function AllSome<T>(s: seq<Option<T>>): (r: Option<seq<T>>)
    ensures r.Some? <==> forall i :: 0 <= i < |s| ==> s[i].Some?
    ensures r.Some? ==> |r.value| == |s| && forall i :: 0 <= i < |s| ==> r.value[i] == s[i].value
  {
    if |s| == 0 then Some([])
    else match AllSome(s[1..])
      case None => None
      case Some(rest) => if s[0].None? then None else Some([s[0].value] + rest)
  }
}
