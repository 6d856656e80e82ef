/** Option and Result, and the two exceptions the lexicon's lookups raise. */
module Wrappers {

  datatype Option<+T> = None | Some(value: T)

  /** `ValueError("Unsupported dialect: ...")` and `KeyError(key)`. */
  datatype Error = UnsupportedDialect(name: string) | KeyError(key: string)

  datatype Result<+T> = Ok(value: T) | Err(error: Error)
}
