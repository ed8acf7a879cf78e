/**
 * The middleware contract of the routing layer: a middleware's `handle`
 * answers a request with either a boolean or an error object.
 */
module Contracts {

  /** The `bool|WP_Error` value a middleware's `handle` returns. The error
      object is opaque to the dispatcher, so its type is a parameter. */
  datatype Permission<E> = Bool(value: bool) | Error(error: E) {

    /** The dispatcher carries on past a result only when it is neither an
        error object nor falsy, that is, exactly when it is `true`. */
    predicate Allows() {
      Bool? && value
    }
  }
}
