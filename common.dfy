/** Values shared by the three collections: document identifiers, optional
    fields, and the outcome of a write (the stored record or the error the
    document store raises). */
module Common {

  /** A document identifier (a Mongo ObjectId). Only equality is observable;
      the store hands out a fresh one for every insert. */
  type Id(==, !new)

  datatype Option<+T> = None | Some(value: T) {
    /** The value, or the schema default when the field was not supplied. */
    function GetOr(default: T): T
    {
      match this
      case Some(v) => v
      case None => default
    }
  }

  /** The schema paths that carry a validation rule. */
  datatype Field = Username | Email | Password | UserId | Content | FollowerId | FollowingId

  /** One failed rule of a schema: a `required` path that is absent (or, for a
      string path, empty), or a string path longer than its `maxlength`. */
  datatype Violation = Missing(field: Field) | TooLong(field: Field)

  datatype Error =
    | ValidationError(violations: set<Violation>)  // schema validators rejected the document
    | DuplicateKey                                 // a unique index rejected the write
    | TweetNotFound                                // the error likeTweet throws

  datatype Result<+T> = Ok(value: T) | Err(error: Error)

  /** Mongoose's `required` test for a String path: present and not "". */
  predicate PresentString(o: Option<string>) {
    o.Some? && o.value != ""
  }
}
