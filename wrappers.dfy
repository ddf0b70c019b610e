/** Optional values, standing for Python's `None`-or-value returns. */
module Wrappers {
  datatype Option<T> = None | Some(value: T)
  {
    /** `d.get(key, default)` once the lookup has produced `this`. */
    function GetOr(default: T): (r: T)
      ensures Some? ==> r == value
      ensures None? ==> r == default
    {
      if Some? then value else default
    }
  }
}
