/** Outcome types shared by the store, the serializers and the viewsets. */
module Common {

  datatype Option<+T> = None | Some(value: T)

  /** The error kinds the request layer can report.
      ValidationError carries the names of the input fields that were rejected,
      as a serializer's error dictionary does; NotFound is what a lookup outside
      the caller's visible set yields; Unauthenticated is the permission check. */
  datatype Error =
    | ValidationError(fields: set<string>)
    | NotFound
    | Unauthenticated

  datatype Result<+T> = Success(value: T) | Failure(error: Error)
}
