/** Identifiers, optional values and the outcomes a route handler sends back. */
module Common {

  /** A document's ObjectId. Users and classes draw theirs from one counter. */
  type Id = nat

  datatype Option<T> = None | Some(value: T)

  /** The response of a handler: the document on success, otherwise the status
      code's kind with the message the handler sends in its JSON body. */
  datatype Outcome<T> =
    | Ok(value: T)
    | NotFound(message: string)     // 404
    | Forbidden(message: string)    // 403
    | BadRequest(message: string)   // 400

  /** The value of a field after an update document in which an absent
      (`undefined`) key is stripped rather than written. */
  function Overwrite<T>(stored: T, given: Option<T>): T
  {
    match given
    case Some(v) => v
    case None => stored
  }

  /** An optional path after such an update: a given value replaces the
      stored one, an absent one keeps it. */
  function Merge<T>(stored: Option<T>, given: Option<T>): Option<T>
  {
    if given.Some? then given else stored
  }

  predicate NoDuplicates<T(==)>(s: seq<T>)
  {
    forall i, j :: 0 <= i < j < |s| ==> s[i] != s[j]
  }

  /** MongoDB's `$addToSet` on an array field: the stored array is kept as it
      is, and `x` is added once at its end unless it is already there. */
  function AddToSet<T(==)>(s: seq<T>, x: T): (r: seq<T>)
    ensures x in r
    ensures |r| == |s| + (if x in s then 0 else 1)
    ensures r[..|s|] == s
    ensures x in s ==> r == s
    ensures forall k :: 0 <= k < |r| ==> r[k] == x || r[k] in s
    ensures NoDuplicates(s) ==> NoDuplicates(r)
  {
    if x in s then s else s + [x]
  }
}
