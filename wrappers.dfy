/** An optional value: a JSON field that is present, or one that is missing or null. */
module Wrappers {

  datatype Option<+T> = None | Some(value: T)

}
