/** The two shapes the browser script gives its uncertain values: a DOM
    read that may come back `null` or `undefined`, and a promise that
    settles either fulfilled or rejected. */
module Nullable {

  /** A DOM read: `Some` for an attribute, property or element that exists,
      `None` for `null` or `undefined`. */
  datatype Option<T> = None | Some(value: T) {

    /** The read value, with `fallback` standing for the missing one: the
        script's `x || 0` on a value that is never falsy when present, and
        the text a template literal prints for `undefined`. */
    function OrElse(fallback: T): T {
      if Some? then value else fallback
    }
  }

  /** A settled promise: `Ok` when fulfilled, `Err` with its reason when rejected. */
  datatype Result<T, E> = Ok(value: T) | Err(error: E)
}
