/** Optional values and results, used for JavaScript's `null`/`undefined`/`NaN` and for error paths. */
module Options {

  /** `None` stands for a missing (`null`, `undefined`) or unparsable (`NaN`) value. */
  datatype Option<+T> = None | Some(value: T)

  /** The outcome of a guard chain: the checked value, or the first failing check. */
  datatype Result<+T, +E> = Ok(value: T) | Err(error: E)
}
