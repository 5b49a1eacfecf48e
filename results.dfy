/** Failure-carrying result types shared by the navigation engine, the typed
    accessors and the reader class. The source signals these failures with
    RAPIDJSON_ASSERT; here they are ordinary values. */
module Results {

  /** Why a lookup or a write could not be carried out. */
  datatype Error =
    | MissingKey          // a read-style descent hit an absent member
    | WrongNodeKind       // a node was indexed as an object, or read as the wrong kind
    | InvalidPathSegment  // a shallow set met a missing intermediate object

  datatype Option<+T> = None | Some(value: T)

  datatype Result<+T> = Success(value: T) | Failure(error: Error)

  /** The outcome of a setter, which returns nothing on success. */
  datatype Status = Done | Failed(error: Error)
}
