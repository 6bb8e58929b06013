/** Optional values and the errors the book-club code can raise. */
module Outcomes {

  datatype Option<+T> = None | Some(value: T)

  /** The exceptions that end a request in the source, each named after what raises it. */
  datatype Error =
    | NotFound              // `.first()` found no row and the code then used the missing object
    | NoResultFound         // `.one()` saw no row
    | MultipleResultsFound  // `.one()`, `.one_or_none()` or `.scalar()` saw more than one row
    | IntegrityError        // a foreign key that names no row
    | ValueError(message: string)

  datatype Result<+T> = Ok(value: T) | Err(error: Error)
}
