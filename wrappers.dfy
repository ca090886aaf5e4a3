/** Ruby's "a value or nil", as handed back by Hash#delete. */
module Wrappers {

  datatype Option<T> = None | Some(value: T)
}
