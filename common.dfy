/** Values shared by the data-access layer: optional values, the ways a
    call into the backend can end, and the user-profile document. */
module Common {

  datatype Option<+T> = None | Some(value: T) {
    function GetOr(default: T): T {
      match this
      case Some(v) => v
      case None => default
    }
  }

  /** What an async data-access function settles to: a value, or a
      rejection (a thrown error) with its cause. */
  datatype Result<+T> = Ok(value: T) | Err(failure: Failure)

  /** Why an operation rejected (threw) instead of returning a value. */
  datatype Failure =
    | MissingArgument   // an identifier the operation needs is empty
    | NotConfigured     // the collection id is not configured
    | RequestFailed     // the backend call threw
    | FalsyResponse     // the backend call resolved to a falsy value

  /** How one backend write request ends: it takes effect and resolves to a
      document, it resolves to a falsy value without effect, or it throws
      without effect. */
  datatype Outcome = Resolved | Falsy | Rejected

  /** The `{ status: "ok" }` acknowledgement. */
  datatype Status = StatusOk

  /** A document of the users collection. */
  datatype UserDoc = UserDoc(
    id: string,
    accountId: string,
    name: string,
    username: string,
    email: string,
    imageUrl: string,
    bio: string)

  /** The author / follower summary built from a user document:
      `{ $id, name, username, imageUrl }`. */
  datatype Summary = Summary(id: string, name: string, username: string, imageUrl: string)

  function Summarize(d: UserDoc): Summary {
    Summary(d.id, d.name, d.username, d.imageUrl)
  }

  /** JavaScript truthiness of a string: only "" is falsy. */
  predicate Truthy(s: string) {
    s != ""
  }
}
