/** The `Error` record: an immutable (code, message, status) triple, a value
    rather than an exception, compared field by field. */
module Errors {

  datatype Error = Error(code: string, message: string, status: int)

  /** `Error.Create(code, message)`: the status keeps its default, 0. */
  function Create(code: string, message: string): (e: Error)
    ensures e.code == code && e.message == message && e.status == 0
  {
    Error(code, message, 0)
  }

  /** `Error.Create(code, message, status)`: all three fields as given. */
  function CreateWithStatus(code: string, message: string, status: int): (e: Error)
    ensures e.code == code && e.message == message && e.status == status
  {
    Error(code, message, status)
  }

  /** The implicit conversion from a bare message: empty code, status 0. */
  function FromMessage(message: string): (e: Error)
    ensures e == Create("", message)
  {
    Error("", message, 0)
  }

  /** Every error is built by the three-argument `Create` from its own fields,
      and the two-argument `Create` is the three-argument one at status 0. */
  lemma CreateRoundTrip(e: Error, code: string, message: string)
    ensures CreateWithStatus(e.code, e.message, e.status) == e
    ensures Create(code, message) == CreateWithStatus(code, message, 0)
  {
  }

  /** Record equality: two errors are equal iff code, message and status all agree. */
  lemma ErrorEquality(a: Error, b: Error)
    ensures a == b <==> a.code == b.code && a.message == b.message && a.status == b.status
  {
  }
}

/** `ErrorCache`: the fixed errors of the taxonomy. */
module ErrorCache {
  import opened Errors

  const None: Error := Create("", "")
  const Unauthorized: Error := CreateWithStatus("Error.Unauthorized", "Unauthorized", 401)
  const BadRequest: Error := CreateWithStatus("Error.BadRequest", "Bad Request", 400)
  const NotFound: Error := CreateWithStatus("Error.NotFound", "Not Found", 404)
  const Forbidden: Error := CreateWithStatus("Error.Forbidden", "Forbidden", 403)

  /** The cached errors carry these codes and statuses, and are pairwise distinct. */
  lemma CachedErrors()
    ensures None.code == "" && None.message == "" && None.status == 0
    ensures Unauthorized.code == "Error.Unauthorized" && Unauthorized.status == 401
    ensures BadRequest.code == "Error.BadRequest" && BadRequest.status == 400
    ensures NotFound.code == "Error.NotFound" && NotFound.status == 404
    ensures Forbidden.code == "Error.Forbidden" && Forbidden.status == 403
    ensures None != Unauthorized && None != BadRequest && None != NotFound && None != Forbidden
    ensures Unauthorized != BadRequest && Unauthorized != NotFound && Unauthorized != Forbidden
    ensures BadRequest != NotFound && BadRequest != Forbidden && NotFound != Forbidden
  {
  }

  /** A converted message is the `None` error exactly when the message is empty;
      otherwise it differs from every cached error, whose codes are non-empty. */
  lemma FromMessageIsNoneIff(message: string)
    ensures FromMessage(message) == None <==> message == ""
    ensures FromMessage(message) !in {Unauthorized, BadRequest, NotFound, Forbidden}
  {
  }
}
