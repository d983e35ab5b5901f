/** The optional value used for a query parameter that may be absent
    (`URLSearchParams.get` returns `null` when the key is missing). */
module Wrappers {

  datatype Option<+T> = None | Some(value: T)
}
