/** Null-or-value and success-or-exception wrappers shared by every module.
    `None` stands for a .NET `null`; `Failure` for an exception the helper lets escape. */
module Wrappers {

  datatype Option<+T> = None | Some(value: T)

  /** The kinds of exception the modelled helpers can raise. */
  datatype Error =
    | NullReference      // a member was called on a null reference
    | InvalidCast        // an explicit interface cast failed
    | InvalidOperation   // e.g. Enumerable.Aggregate over an empty sequence
    | GeometryFailure    // the geometry engine refused to measure a distance
    | NotFound           // a named dataset or field does not exist
    | SchemaLockConflict // the exclusive schema lock could not be obtained
    | FieldExists        // AddField with a name already in the schema
    | ConversionFailure  // Convert.ToInt32 rejected a field value

  datatype Result<+T> = Success(value: T) | Failure(error: Error)

  datatype Outcome = Pass | Fail(error: Error)
}
