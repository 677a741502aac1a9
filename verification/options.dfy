/** The optional-value datatype used by the decoders of this model. */
module Options {

  /** `None` for a failed decode, `Some(v)` for a decoded value `v`. */
  datatype Option<+T> = None | Some(value: T)
}
