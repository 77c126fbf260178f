/** The optional-value type used throughout the model. */
module Options {

  /** `None` stands for "no value": a failed lookup, or a conversion this model
      does not describe. */
  datatype Option<+T> = None | Some(value: T)
}
