/** `AuthorizationBehavior.Handle`: an unauthenticated caller gets the cached
    Unauthorized failure; an authenticated one gets whatever `next` returns. */
module AuthorizationBehavior {
  import opened Runtime
  import opened Results
  import ErrorCache
  import ResultCache
  import opened Pipeline

  /** The request is only carried through: the gate never looks at it. */
  function Handle<Req>(request: Req, isAuthenticated: bool, next: Response): (run: Run)
    ensures InvokeNext in run.calls <==> isAuthenticated
    ensures isAuthenticated ==> run.response == next && run.calls == [InvokeNext]
    ensures !isAuthenticated ==>
      run.calls == [] && run.response == Returned(Result.Failure(ErrorCache.Unauthorized))
  {
    if !isAuthenticated then Run(Returned(ResultCache.Unauthorized), [])
    else Run(next, [InvokeNext])
  }

  /** Only the authentication flag decides: the request never matters, and
      when the caller is rejected neither does what `next` would have given. */
  lemma DecidedByAuthenticationAlone<Req>(r1: Req, r2: Req, isAuthenticated: bool, n1: Response, n2: Response)
    ensures Handle(r1, isAuthenticated, n1) == Handle(r2, isAuthenticated, n1)
    ensures !isAuthenticated ==> Handle(r1, false, n1) == Handle(r2, false, n2)
    ensures Handle(r1, isAuthenticated, n1).calls == Handle(r2, isAuthenticated, n2).calls
  {
  }
}
