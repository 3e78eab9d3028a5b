/** Optional values, results and the errors the key-value layer can return. */
module Errors {

  datatype Option<+T> = None | Some(value: T)

  datatype Result<+T> = Ok(value: T) | Err(error: Error)

  datatype Error =
    | KeyNotFound                           // db.ErrKeyNotFound
    | EachBreak                             // db.EachBreak: stop iterating, not a failure
    | TxNotWritable                         // bbolt.ErrTxNotWritable
    | TxClosed                              // bbolt.ErrTxClosed
    | DatabaseNotOpen                       // bbolt.ErrDatabaseNotOpen
    | BucketNotFound                        // bbolt.ErrBucketNotFound
    | BucketNameRequired                    // bbolt.ErrBucketNameRequired
    | IncompatibleValue                     // bbolt.ErrIncompatibleValue
    | KeyRequired                           // bbolt.ErrKeyRequired
    | KeyTooLarge                           // bbolt.ErrKeyTooLarge
    | ValueTooLarge                         // bbolt.ErrValueTooLarge
    | WriteFailed                           // the disk write of a commit failed
    | Codec(reason: string)                 // a failure reported by the value codec
    | Wrapped(context: string, cause: Error) // errors.Wrap(cause, context)

  /** errors.Is: e is target, or wraps it. */
  predicate Is(e: Error, target: Error)
  {
    e == target || (e.Wrapped? && Is(e.cause, target))
  }
}
