/** Option and Result, the two return shapes the grid library uses for
    "absent" values and recoverable errors. */
module Options {

  datatype Option<+T> = None | Some(value: T)

  datatype Result<+T, +E> = Ok(value: T) | Err(error: E)
}
