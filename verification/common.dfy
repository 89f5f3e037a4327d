/** Small shared vocabulary: optional values (the source's nullable columns),
    request outcomes, and row identifiers. */
module Common {

  /** A nullable column or a missing value. */
  datatype Option<+T> = None | Some(value: T)

  /** The outcome of a request that can end in a not-found condition. */
  datatype Result<+T, +E> = Ok(value: T) | Err(error: E)

  /** Primary keys are UUIDs; only their identity matters here. */
  type Uuid = nat
}
