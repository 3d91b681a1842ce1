/** Optional values. `None` stands for a field the gallery leaves `undefined` or `null`. */
module Wrappers {

  datatype Option<+T> = None | Some(value: T) {

    /**
     * The value, or `default` when there is none. This agrees with JavaScript's
     * `x || default` only where no set value is falsy or the default is that falsy
     * value, as in `play`'s `index || 0`, where a 0 argument yields 0 either way.
     */
    function GetOr(default: T): T
    {
      match this
      case Some(v) => v
      case None => default
    }
  }
}
