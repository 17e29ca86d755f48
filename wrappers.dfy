/** Optional values: the model's stand-in for JavaScript's `undefined`/`null`. */
module Wrappers {

  datatype Option<+T> = None | Some(value: T) {

    /** The value, or `default` when there is none. In the store it stands
        for a field that a spread `{ ...c, ...input }` leaves alone. In the
        plate reader the source writes `x || default`, which also replaces
        the falsy values of x; there every default is that falsy value itself
        (`''`, `[]`, `0`) and NaN is not modelled, so replacing a falsy value
        and keeping it agree. */
    function GetOr(default: T): T {
      match this
      case Some(v) => v
      case None => default
    }
  }
}
