/** The optional-value type shared by the other modules. */
module Wrappers {

  /** A value that may be absent: JavaScript's `undefined` / `null` for a field. */
  datatype Option<+T> = None | Some(value: T) {

    /** The value, or `default` when absent. */
    function GetOr(default: T): T {
      match this
      case Some(v) => v
      case None => default
    }

    /** This value when present, otherwise `other`: the first of two outcomes that is present. */
    function OrElse(other: Option<T>): (r: Option<T>)
      ensures r.Some? <==> Some? || other.Some?
      ensures Some? ==> r == this
      ensures None? ==> r == other
    {
      if Some? then this else other
    }

    /** The value as a sequence of at most one element. */
    function ToSeq(): (r: seq<T>)
      ensures r == [] <==> None?
      ensures Some? ==> r == [value]
    {
      if Some? then [value] else []
    }
  }
}
