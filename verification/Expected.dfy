/** What a continuation hands to its callback, and the slots callbacks fill in. */
module Expected {

  datatype Expected<T, E> = Value(value: T) | Void | Failure(error: E)

  datatype Slot<T> = Unset | Wrapper | Held(value: T)
}
