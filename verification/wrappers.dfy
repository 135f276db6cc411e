/** Optional values, used for the timer's optional timestamps and for the
    key-value store's possibly-absent entries. */
module Wrappers {

  datatype Option<+T> = None | Some(value: T) {

    /** True if this is None; makes Option usable with `:-`. */
    predicate IsFailure() {
      None?
    }

    function PropagateFailure<U>(): Option<U>
      requires None?
    {
      None
    }

    function Extract(): T
      requires Some?
    {
      value
    }

    /** The encapsulated value, or `default` when there is none. */
    function GetOr(default: T): (r: T)
      ensures Some? ==> r == value
      ensures None? ==> r == default
    {
      match this
      case Some(v) => v
      case None => default
    }
  }
}
