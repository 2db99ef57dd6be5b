/** The "absent value" marker of the library: JavaScript's `undefined`
    wherever an operation may yield nothing (an empty array's first
    element, a missing property, a reduction of nothing). */
module Wrappers {

  datatype Option<+T> = None | Some(value: T)
}
