/** Optional values: Java's nullable results (`null` for "no position", "no
    tuple") become `None`. A call that can end in a runtime exception (an
    array index out of bounds, say) returns `Throws` in that case. */
module Wrappers {

  datatype Option<T> = None | Some(value: T)

  datatype Exceptional<T> = Throws | Returns(value: T)
}
