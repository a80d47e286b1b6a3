/** The optional value used for the source's `T | undefined` and `T | null` inputs and
    signals. */
module Options {

  datatype Option<T> = None | Some(value: T)
}
