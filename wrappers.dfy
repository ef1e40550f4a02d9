/** Optional values: a field or parameter that a request may leave out. */
module Wrappers {

  datatype Option<+T> = None | Some(value: T) {

    /** The carried value, or `default` when there is none. */
    function GetOr(default: T): T {
      match this
      case Some(v) => v
      case None => default
    }
  }

  /** Dictionary lookup with a default, as a missing key is read: the value at `key`, else `default`. */
  function MapGet<K, V>(m: map<K, V>, key: K, default: V): V {
    if key in m then m[key] else default
  }
}
