/** `SensitiveRequestBehavior.Handle`: one blacklist lookup keyed by the current
    user id; a listed caller gets the cached Unauthorized failure, anyone else
    gets whatever `next` returns. */
module SensitiveRequestBehavior {
  import opened Runtime
  import opened Results
  import ErrorCache
  import ResultCache
  import Options
  import opened Pipeline

  /** `render` is how the user id is turned into the lookup key (the option's
      `ToString()`); `isBlackListed` is the blacklist manager's answer per key,
      a success meaning that the key is listed. */
  function Handle<Req>(request: Req, userId: Options.Option<string>, render: Options.Option<string> -> string,
                       isBlackListed: string -> Result, next: Response): (run: Run)
    ensures |run.calls| >= 1 && run.calls[0] == IsBlackListed(render(userId))
    ensures Occurrences(run.calls, IsBlackListed(render(userId))) == 1
    ensures InvokeNext in run.calls <==> !isBlackListed(render(userId)).isSuccess
    ensures isBlackListed(render(userId)).isSuccess ==>
      run.response == Returned(Result.Failure(ErrorCache.Unauthorized)) && |run.calls| == 1
    ensures !isBlackListed(render(userId)).isSuccess ==> run.response == next
  {
    var key := render(userId);
    if isBlackListed(key).isSuccess then Run(Returned(ResultCache.Unauthorized), [IsBlackListed(key)])
    else Run(next, [IsBlackListed(key), InvokeNext])
  }

  /** A listed caller is turned away as Unauthorized, never as Forbidden, and
      only the lookup's answer counts: the request does not. */
  lemma ListedCallerIsUnauthorized<Req>(r1: Req, r2: Req, userId: Options.Option<string>,
                                        render: Options.Option<string> -> string,
                                        isBlackListed: string -> Result, next: Response)
    ensures Handle(r1, userId, render, isBlackListed, next) == Handle(r2, userId, render, isBlackListed, next)
    ensures isBlackListed(render(userId)).isSuccess ==>
      Handle(r1, userId, render, isBlackListed, next).response != Returned(ResultCache.Forbidden)
  {
    ResultCache.CachedResults();
  }

  /** The gate has no check of its own for a missing user id: the absent id is
      rendered and looked up like any other, and an unlisted key lets the request through. */
  lemma MissingUserIdIsLookedUp<Req>(request: Req, render: Options.Option<string> -> string,
                                     isBlackListed: string -> Result, next: Response)
    requires !isBlackListed(render(Options.None)).isSuccess
    ensures Handle(request, Options.None, render, isBlackListed, next).response == next
  {
  }

  /** What `UserId.ToString()` yields: the shared-kernel option is a record, and
      its generated `ToString()` prints its public members, of which `HasValue`
      is the only one; the id itself is private and never printed. */
  function RecordRendering(userId: Options.Option<string>): string {
    if userId.HasValue() then "Option { HasValue = True }" else "Option { HasValue = False }"
  }

  /** As written, the lookup key is the record rendering: every caller that has
      an id is looked up under the same key, so which id it is never matters. */
  lemma IdNeverMatters<Req>(request: Req, a: string, b: string, isBlackListed: string -> Result, next: Response)
    ensures Handle(request, Options.Some(a), RecordRendering, isBlackListed, next) ==
            Handle(request, Options.Some(b), RecordRendering, isBlackListed, next)
    ensures Handle(request, Options.Some(a), RecordRendering, isBlackListed, next).calls[0] ==
            IsBlackListed("Option { HasValue = True }")
  {
  }

  /** A blacklist that lists exactly the user "user-1". */
  function ListsUserOne(key: string): Result {
    if key == "user-1" then Result.Success() else Result.FailureWithoutError()
  }

  /** As written, the listed user "user-1" is let through. */
  lemma ListedIdIsNotRefused<Req>(request: Req, next: Response)
    ensures Handle(request, Options.Some("user-1"), RecordRendering, ListsUserOne, next).response == next
    ensures InvokeNext in Handle(request, Options.Some("user-1"), RecordRendering, ListsUserOne, next).calls
  {
    assert RecordRendering(Options.Some("user-1")) != "user-1";
  }

  /** The evidently intended key: the id itself, and the empty string when
      there is none. */
  function IdKey(userId: Options.Option<string>): string {
    if userId.HasValue() then userId.value else ""
  }

  /** The gate keyed by the user id itself: a listed id is refused as
      Unauthorized, an unlisted one reaches `next`, after one lookup of that id. */
  function HandleById<Req>(request: Req, userId: Options.Option<string>,
                           isBlackListed: string -> Result, next: Response): (run: Run)
    ensures |run.calls| >= 1 && (userId.HasValue() ==> run.calls[0] == IsBlackListed(userId.value))
    ensures userId.HasValue() && isBlackListed(userId.value).isSuccess ==>
      run.response == Returned(ResultCache.Unauthorized) && InvokeNext !in run.calls
    ensures userId.HasValue() && !isBlackListed(userId.value).isSuccess ==>
      run.response == next && InvokeNext in run.calls
  {
    Handle(request, userId, IdKey, isBlackListed, next)
  }

  /** Keyed by the id, the listed user "user-1" is refused and "user-2" is let through. */
  lemma ListedIdIsRefused<Req>(request: Req, next: Response)
    ensures HandleById(request, Options.Some("user-1"), ListsUserOne, next).response == Returned(ResultCache.Unauthorized)
    ensures HandleById(request, Options.Some("user-2"), ListsUserOne, next).response == next
  {
    assert ListsUserOne("user-1").isSuccess;
    assert !ListsUserOne("user-2").isSuccess;
  }
}
