/** `RequestValidationBehavior.Handle`: run every validator, write each failure's
    message on its own line, and fail with that text when there is any; otherwise
    pass the request on. */
module RequestValidationBehavior {
  import opened Runtime
  import Errors
  import ErrorCache
  import opened Results
  import ResultExtensions
  import Linq
  import opened Pipeline

  datatype ValidationFailure = ValidationFailure(propertyName: string, errorMessage: string)

  /** What one validator reports; a null entry is skipped. */
  datatype ValidationResult = ValidationResult(errors: seq<Nullable<ValidationFailure>>)

  type Validator<!Req> = Req -> ValidationResult

  /** The line terminator `AppendLine` writes (platform-dependent in .NET; fixed here). */
  const NewLine: string := "\n"

  /** The non-null failures, validator by validator, each validator's in its own order. */
  function Failures<Req>(request: Req, validators: seq<Validator<Req>>): seq<ValidationFailure> {
    Linq.NonNull(Linq.SelectMany(Linq.Select(validators, (v: Validator<Req>) => v(request)),
                                 (r: ValidationResult) => r.errors))
  }

  /** The failures of a list of validators are those of its first part followed
      by those of the rest: registration order is kept. */
  lemma {:induction false} FailuresInRegistrationOrder<Req>(request: Req, a: seq<Validator<Req>>, b: seq<Validator<Req>>)
    ensures Failures(request, a + b) == Failures(request, a) + Failures(request, b)
  {
    var run := (v: Validator<Req>) => v(request);
    var errs := (r: ValidationResult) => r.errors;
    assert Linq.Select(a + b, run) == Linq.Select(a, run) + Linq.Select(b, run);
    Linq.SelectManyAppend(Linq.Select(a, run), Linq.Select(b, run), errs);
    Linq.NonNullAppend(Linq.SelectMany(Linq.Select(a, run), errs), Linq.SelectMany(Linq.Select(b, run), errs));
  }

  /** A single validator contributes its own non-null failures, in its own order. */
  lemma FailuresOfOne<Req>(request: Req, v: Validator<Req>)
    ensures Failures(request, [v]) == Linq.NonNull(v(request).errors)
  {
  }

  /** The text the string builder holds after one `AppendLine` per failure. */
  function Joined(failures: seq<ValidationFailure>): string {
    if failures == [] then ""
    else Joined(failures[..|failures| - 1]) + failures[|failures| - 1].errorMessage + NewLine
  }

  /** Joining distributes over concatenation. */
  lemma {:induction false} JoinedAppend(a: seq<ValidationFailure>, b: seq<ValidationFailure>)
    ensures Joined(a + b) == Joined(a) + Joined(b)
  {
    if b == [] {
      assert a + b == a;
    } else {
      var last := b[|b| - 1];
      assert (a + b)[..|a + b| - 1] == a + b[..|b| - 1];
      JoinedAppend(a, b[..|b| - 1]);
    }
  }

  /** Appending one failure appends its line. */
  lemma JoinedLast(a: seq<ValidationFailure>, f: ValidationFailure)
    ensures Joined(a + [f]) == Joined(a) + (f.errorMessage + NewLine)
  {
    assert (a + [f])[..|a + [f]| - 1] == a;
  }

  /** Every failure contributes at least its line terminator, so the text is
      empty exactly when there are no failures. */
  lemma {:induction false} JoinedEmptyIff(failures: seq<ValidationFailure>)
    ensures |Joined(failures)| >= |failures|
    ensures Joined(failures) == "" <==> failures == []
  {
    if failures != [] {
      JoinedEmptyIff(failures[..|failures| - 1]);
    }
  }

  /** `m` occurs in `s` starting at index `k`. */
  ghost predicate OccursAt(s: string, m: string, k: int) {
    0 <= k <= |s| - |m| && s[k..k + |m|] == m
  }

  /** `m` occurs in `s` as a contiguous piece. */
  ghost predicate Contains(s: string, m: string) {
    exists k :: OccursAt(s, m, k)
  }

  /** A piece placed between two strings occurs right after the first, and so does its prefix. */
  lemma OccursBetween(a: string, m: string, n: string, c: string)
    ensures OccursAt(a + (m + n) + c, m + n, |a|)
    ensures OccursAt(a + (m + n) + c, m, |a|)
  {
    var s := a + (m + n) + c;
    assert s[|a|..|a| + |m + n|] == m + n;
    assert s[|a|..|a| + |m|] == (m + n)[..|m|] == m;
  }

  /** Every failure's message, followed by the terminator, appears in the text. */
  lemma JoinedContainsEach(failures: seq<ValidationFailure>, i: nat)
    requires i < |failures|
    ensures Contains(Joined(failures), failures[i].errorMessage + NewLine)
    ensures Contains(Joined(failures), failures[i].errorMessage)
  {
    SplitAt(failures, i);
    JoinedContainsLine(failures[..i], failures[i], failures[i + 1..]);
  }

  lemma SplitAt<T>(s: seq<T>, i: nat)
    requires i < |s|
    ensures s == s[..i] + [s[i]] + s[i + 1..]
  {
  }

  lemma JoinedContainsLine(pre: seq<ValidationFailure>, f: ValidationFailure, post: seq<ValidationFailure>)
    ensures Contains(Joined(pre + [f] + post), f.errorMessage + NewLine)
    ensures Contains(Joined(pre + [f] + post), f.errorMessage)
  {
    JoinedAround(pre, f, post);
    OccursBetween(Joined(pre), f.errorMessage, NewLine, Joined(post));
  }

  /** The text is the lines before a failure, its own line, and the lines after it. */
  lemma JoinedAround(pre: seq<ValidationFailure>, f: ValidationFailure, post: seq<ValidationFailure>)
    ensures Joined(pre + [f] + post) == Joined(pre) + (f.errorMessage + NewLine) + Joined(post)
  {
    JoinedAppend(pre + [f], post);
    JoinedLast(pre, f);
  }

  /** The `ForEach(failure => sb.AppendLine(failure.ErrorMessage))` loop. */
  method AppendLines(failures: seq<ValidationFailure>) returns (text: string)
    ensures text == Joined(failures)
  {
    text := "";
    var i := 0;
    while i < |failures|
      invariant 0 <= i <= |failures|
      invariant text == Joined(failures[..i])
    {
      assert failures[..i + 1][..i] == failures[..i];
      text := text + failures[i].errorMessage + NewLine;
      i := i + 1;
    }
    assert failures[..|failures|] == failures;
  }

  /** The validators run first, in registration order: calls `0` to `n - 1`. */
  function ValidateCalls(n: nat): (calls: seq<Call>)
    ensures |calls| == n && forall i :: 0 <= i < n ==> calls[i] == Validate(i)
  {
    if n == 0 then [] else ValidateCalls(n - 1) + [Validate(n - 1)]
  }

  method Handle<Req>(request: Req, validators: seq<Validator<Req>>, next: Response) returns (run: Run)
    ensures var failures := Failures(request, validators);
      && run.calls == ValidateCalls(|validators|) + (if failures == [] then [InvokeNext] else [])
      && (failures == [] ==> run.response == next)
      && (failures != [] ==> run.response == Returned(Result.Failure(Errors.FromMessage(Joined(failures)))))
    ensures run.response.Returned? && run.response.value.IsFailure() && InvokeNext !in run.calls ==>
      run.response.value.error.code == "" && run.response.value.error != ErrorCache.BadRequest &&
      run.response.value.error.message != ""
  {
    var failures := Failures(request, validators);
    var validationErrorMessage := AppendLines(failures);
    JoinedEmptyIff(failures);
    if |validationErrorMessage| > 0 {
      var response := ResultExtensions.Create(Errors.FromMessage(validationErrorMessage));
      run := Run(Returned(response), ValidateCalls(|validators|));
    } else {
      run := Run(next, ValidateCalls(|validators|) + [InvokeNext]);
    }
  }

  /** One validator that reports "Name is required" makes the gate fail with
      exactly that line. */
  lemma NameRequiredScenario<Req>(request: Req, validator: Validator<Req>)
    requires validator(request) == ValidationResult([Ref(ValidationFailure("Name", "Name is required"))])
    ensures Failures(request, [validator]) == [ValidationFailure("Name", "Name is required")]
    ensures Joined(Failures(request, [validator])) == "Name is required\n"
  {
    FailuresOfOne(request, validator);
  }
}
