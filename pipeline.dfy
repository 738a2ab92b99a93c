/** What the request-pipeline behaviors have in common: the response a handler
    produces and the log of the calls a behavior makes to the world around it. */
module Pipeline {
  import opened Runtime
  import opened Results

  /** A call a behavior makes: to the next step of the pipeline, or to a collaborator. */
  datatype Call =
    | InvokeNext
    | IsBlackListed(key: string)
    | Validate(validator: nat)
    | TakeLock(key: string, expirationSeconds: int)
    | ReleaseLock(key: string)

  /** What awaiting a pipeline step yields: a result, or a fault it raised. */
  type Response = Attempt<Result>

  /** One run of a behavior: the response it gave and its calls, in order. */
  datatype Run = Run(response: Response, calls: seq<Call>)

  /** How often `c` occurs in `calls`. */
  function Occurrences(calls: seq<Call>, c: Call): (n: nat)
    ensures n <= |calls|
    ensures n == 0 <==> c !in calls
  {
    if calls == [] then 0
    else (if calls[0] == c then 1 else 0) + Occurrences(calls[1..], c)
  }

  lemma {:induction false} OccurrencesAppend(a: seq<Call>, b: seq<Call>, c: Call)
    ensures Occurrences(a + b, c) == Occurrences(a, c) + Occurrences(b, c)
  {
    if a == [] {
      assert a + b == b;
    } else {
      assert (a + b)[1..] == a[1..] + b;
      OccurrencesAppend(a[1..], b, c);
    }
  }
}
