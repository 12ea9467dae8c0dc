/** Optional values, used wherever ember-storages returns `undefined`, `null` or
    `false` to mean "nothing", or throws. */
module Wrappers {

  datatype Option<+T> = None | Some(value: T) {

    /** The value, or `default` when there is none. */
    function GetOr(default: T): T {
      match this
      case Some(v) => v
      case None => default
    }
  }
}
