/** The two Result shapes: the value-less `Result` (an error and a success
    flag) and the value-carrying `Result<TValue, TError>`, here `ValueResult`. */
module Results {
  import opened Errors
  import ErrorCache

  /** `Result`: the record's two properties; `Error` defaults to `ErrorCache.None`. */
  datatype Result = Result(error: Error, isSuccess: bool) {

    predicate IsFailure() {
      !isSuccess
    }

    /** The internal constructor from an error: a failure carrying it. */
    static function OfError(error: Error): Result {
      Result(error, false)
    }

    /** The internal constructor from a flag: the error stays `ErrorCache.None`. */
    static function OfFlag(isSuccess: bool): Result {
      Result(ErrorCache.None, isSuccess)
    }

    /** `Result.Success()`, the cached success. */
    static function Success(): (r: Result)
      ensures r.isSuccess && !r.IsFailure() && r.error == ErrorCache.None
    {
      CachedSuccess
    }

    /** `Result.Failure(error)`. */
    static function Failure(error: Error): (r: Result)
      ensures !r.isSuccess && r.IsFailure() && r.error == error
    {
      OfError(error)
    }

    /** `Result.Failure()`, the cached failure: no error beyond `ErrorCache.None`. */
    static function FailureWithoutError(): (r: Result)
      ensures r.IsFailure() && r.error == ErrorCache.None
    {
      CachedFailure
    }

    /** The implicit conversion from an `Error`. */
    static function FromError(error: Error): (r: Result)
      ensures r.IsFailure() && r.error == error
    {
      Failure(error)
    }

    /** `Match(success, failure)`: the success branch iff the result is a success. */
    function Match<R>(success: () -> R, failure: Error -> R): (r: R)
      ensures isSuccess ==> r == success()
      ensures !isSuccess ==> r == failure(error)
    {
      if isSuccess then success() else failure(error)
    }
  }

  /** `ResultCache.Success` and `ResultCache.Failure`, built from the flag alone. */
  const CachedSuccess: Result := Result.OfFlag(true)
  const CachedFailure: Result := Result.OfFlag(false)

  /** What the record's constructors guarantee: a success carries no error. */
  ghost predicate WellFormed(r: Result) {
    r.isSuccess ==> r.error == ErrorCache.None
  }

  /** Every result the constructors build is well formed; failing with the
      `None` error is the same value as the cached error-less failure. */
  lemma ConstructorsWellFormed(error: Error, flag: bool)
    ensures WellFormed(Result.OfError(error)) && WellFormed(Result.OfFlag(flag))
    ensures WellFormed(Result.Success()) && WellFormed(Result.Failure(error))
    ensures Result.Failure(ErrorCache.None) == Result.FailureWithoutError()
    ensures Result.Success() != Result.Failure(error)
  {
  }

  /** `Failure(e).Match(_, f => f)` gives back `e`; `Success().Match(s, _)` is `s()`. */
  lemma MatchRoundTrip<R>(e: Error, s: () -> R, f: Error -> R)
    ensures Result.Failure(e).Match(() => ErrorCache.None, x => x) == e
    ensures Result.Failure(e).Match(s, f) == f(e)
    ensures Result.Success().Match(s, f) == s()
    ensures Result.FromError(e).IsFailure() && Result.FromError(e).error == e
  {
  }

  /** `Result<TValue, TError>`: a success holding a value or a failure holding an error. */
  datatype ValueResult<V, E> = Succeeded(value: V) | Failed(error: E) {

    predicate IsSuccess() {
      Succeeded?
    }

    predicate IsFailure() {
      !IsSuccess()
    }

    static function Success(value: V): (r: ValueResult<V, E>)
      ensures r.IsSuccess() && r.value == value
    {
      Succeeded(value)
    }

    static function Failure(error: E): (r: ValueResult<V, E>)
      ensures r.IsFailure() && r.error == error
    {
      Failed(error)
    }

    /** The implicit conversion from a value. */
    static function FromValue(value: V): (r: ValueResult<V, E>)
      ensures r.IsSuccess() && r.value == value
    {
      Success(value)
    }

    /** The implicit conversion from an error. */
    static function FromError(error: E): (r: ValueResult<V, E>)
      ensures r.IsFailure() && r.error == error
    {
      Failure(error)
    }

    function Match<R>(success: V -> R, failure: E -> R): (r: R)
      ensures IsSuccess() ==> r == success(value)
      ensures IsFailure() ==> r == failure(error)
    {
      if IsSuccess() then success(value) else failure(error)
    }
  }

  /** Success and failure never coincide, and `Match` dispatches on which it is. */
  lemma ValueResultMatch<V, E, R>(v: V, e: E, s: V -> R, f: E -> R)
    ensures ValueResult<V, E>.Success(v) != ValueResult<V, E>.Failure(e)
    ensures ValueResult<V, E>.Success(v).Match(s, f) == s(v)
    ensures ValueResult<V, E>.Failure(e).Match(s, f) == f(e)
    ensures forall r: ValueResult<V, E> :: r.IsFailure() == !r.IsSuccess()
  {
  }
}

/** `ResultCache`'s public failures: each carries the same-named cached error. */
module ResultCache {
  import ErrorCache
  import opened Results

  const Unauthorized: Result := Result.Failure(ErrorCache.Unauthorized)
  const BadRequest: Result := Result.Failure(ErrorCache.BadRequest)
  const NotFound: Result := Result.Failure(ErrorCache.NotFound)
  const Forbidden: Result := Result.Failure(ErrorCache.Forbidden)

  /** Each cached result is a failure with the matching error and HTTP status. */
  lemma CachedResults()
    ensures Unauthorized.IsFailure() && Unauthorized.error == ErrorCache.Unauthorized
    ensures BadRequest.IsFailure() && BadRequest.error == ErrorCache.BadRequest
    ensures NotFound.IsFailure() && NotFound.error == ErrorCache.NotFound
    ensures Forbidden.IsFailure() && Forbidden.error == ErrorCache.Forbidden
    ensures Unauthorized.error.status == 401 && Forbidden.error.status == 403
    ensures Unauthorized != Forbidden
  {
  }
}

/** `ResultExtensions.Create`, the two overloads. */
module ResultExtensions {
  import opened Errors
  import opened Results

  function Create(error: Error): (r: Result)
    ensures r.IsFailure() && r.error == error
  {
    Result.Failure(error)
  }

  function CreateSuccess<V, E>(value: V): (r: ValueResult<V, E>)
    ensures r.IsSuccess() && r.value == value
  {
    ValueResult<V, E>.Success(value)
  }
}
