/** Success/failure channels shared by every part of the storage model.
    The store never throws across its caller boundary: every operation
    answers through one of these values. */
module Outcomes {

  datatype Option<+T> = None | Some(value: T)

  datatype Result<+T, +E> = Success(value: T) | Failure(error: E)

  /** The errors the storage layer reports to its callers. */
  datatype StoreError =
    | HashInvalid(hash: string)     // a hash prefix that fails the hash pattern
    | HashNotFound(hash: string)    // no stored object id has the prefix
    | HashNotUnique(hash: string)   // two or more stored ids have the prefix
    | DuplicateKey(id: string)      // an insert whose document id is already stored
    | BranchConflict(name: string)  // a branch write whose expected hash was not the stored one
    | Driver(message: string)       // a failure reported by the backend driver
}
