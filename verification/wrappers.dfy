/** The optional value used where the application's code returns "nothing"
    (an absent match, a missing key) instead of a value. */
module Wrappers {

  datatype Option<+T> = None | Some(value: T)
}
