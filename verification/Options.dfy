/** The optional value used throughout: Go's nil pointers, TypeScript's undefined. */
module Options {
  datatype Option<+T> = None | Some(value: T)
}
