/** Errors the document store raises, as the services see them. */
module Persistence {

  /** The validator of a schema path that rejected a value. */
  datatype Validator = Required | MinLength(min: nat) | MaxLength(max: nat) | CastToObjectId

  datatype StoreError =
    /** `new Error(message)` thrown by a service. */
    | Thrown(message: string)
    /** A document failed schema validation: each failing path with its first failing validator. */
    | ValidationError(failures: map<string, Validator>)
    /** The unique index on a path already holds the value (a server error with code 11000). */
    | DuplicateKey(path: string)
    /** A query value could not be cast to an ObjectId. */
    | CastError(path: string)

  /** The driver's numeric error code, where the error has one. */
  function Code(e: StoreError): (c: int)
    ensures c == 11000 <==> e.DuplicateKey?
  {
    if e.DuplicateKey? then 11000 else 0
  }
}
