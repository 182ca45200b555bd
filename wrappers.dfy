/** An optional value: JavaScript's `undefined`/`null` results and absent map entries. */
module Wrappers {

  datatype Option<+T> = None | Some(value: T)

}
