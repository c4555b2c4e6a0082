/** The usual optional-value wrapper, used for decoders that can refuse their input. */
module Options {
  datatype Option<T> = None | Some(value: T)
}
