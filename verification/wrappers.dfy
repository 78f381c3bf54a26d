/** The optional value used for PHP's nullable results (`?array`, `?? null`). */
module Wrappers {

  datatype Option<+T> = None | Some(value: T)

}
