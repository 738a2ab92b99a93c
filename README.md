# StreamingApp-Modulith building blocks in Dafny

This project models the building blocks that every module of the StreamingApp
modular monolith shares:

- **Error, result and option kernel.** The `Error` record and `ErrorCache`; the value-less
  `Result`, the value-carrying `Result<TValue, TError>`, `ResultCache` and
  `ResultExtensions`; and both `Option<T>` types (the shared kernel's and the older
  `SharedKernel` one) with their LINQ-style extensions.
- **Four request-pipeline behaviors.** Each one stands in front of a request handler:
  - authorization turns away unauthenticated callers;
  - the sensitive-request gate turns away callers whose lookup key is blacklisted (the key is the
    printout of the user-id option, which is the same for every caller with an id; see Findings);
  - the lock gate serialises requests that share a key;
  - validation runs every registered validator and fails with the collected messages.
- **`ClaimsPrincipalExtensions`.** Finds claims by type and reads the user id.
- **Domain base types.** `BaseEntity`'s domain-event buffer, `ValueObject`'s equality and
  hash, and `EntityId<TId>` / `GuidEntityId`.

How the model is built:

- **Pure code becomes datatypes and functions.** The records and extension methods
  become datatypes and functions. The LINQ operators they chain are in module `Linq`.
  A null reference is `Runtime.Nullable` and a thrown exception is `Runtime.Attempt`.
- **Gates log their calls.** The authorization, sensitive-request and validation gates
  return the response together with the log of calls they made: to `next`, to the
  blacklist, to each validator. So "next is never invoked" and "exactly one lookup" are
  statements about that log.
- **The lock gate changes state.** It is a method on a `Host` object that holds the cache
  service's lock table and the call log.
- **`BaseEntity` is a class.** Its event list is an object of its own, updated in place, and
  `DomainEvents` hands out that same object, so a view taken earlier sees later changes.
- **The validation message is built by a loop.** `AppendLines` is proved against the
  function `Joined`.

Where the system's written description differs from its code, the model follows the code:

- The validation failure's message ends with a line terminator after every failure,
  including the last one.
- A blacklisted caller receives `ResultCache.Unauthorized`, not `Forbidden`.
- A caller without a user id is not rejected by the sensitive-request gate. The absent id
  is rendered to a string and looked up like any other.
- The sensitive-request gate looks up `UserId.ToString()`. The option is a record whose only
  public member is `HasValue`, so the key is `Option { HasValue = True }` for every caller with
  an id, and `Option { HasValue = False }` otherwise.
- The blacklist answer counts as "listed" when it is a success.

## Model

| member | source | states |
|---|---|---|
| `Errors.Create` | src/common/BuildingBlocks.SharedKernel/Error.cs:25 | the two-argument factory keeps code and message and leaves the status at its default 0 |
| `Errors.CreateWithStatus` | src/common/BuildingBlocks.SharedKernel/Error.cs:27 | the three-argument factory keeps all three fields |
| `Errors.FromMessage` | src/common/BuildingBlocks.SharedKernel/Error.cs:29 | converting a bare message gives the error with empty code, that message and status 0 |
| `Errors.CreateRoundTrip` | src/common/BuildingBlocks.SharedKernel/Error.cs:10-27 | every error is rebuilt by the three-argument factory from its own fields; the two-argument factory is the three-argument one at status 0 |
| `Errors.ErrorEquality` | src/common/BuildingBlocks.SharedKernel/Error.cs:3-7 | record equality: two errors are equal iff code, message and status all agree |
| `ErrorCache.CachedErrors` | src/common/BuildingBlocks.SharedKernel/Error.cs:34-45 | the cached errors carry the listed codes and HTTP statuses (401, 400, 404, 403, and 0 for None) and are pairwise distinct |
| `ErrorCache.FromMessageIsNoneIff` | src/common/BuildingBlocks.SharedKernel/Error.cs:29-36 | a converted message equals `ErrorCache.None` iff it is empty, and never equals another cached error |
| `Results.Result.Success` | src/common/BuildingBlocks.SharedKernel/Result.cs:24 | the cached success is a success whose error is `ErrorCache.None` |
| `Results.Result.Failure` | src/common/BuildingBlocks.SharedKernel/Result.cs:26 | a failure that carries exactly the given error |
| `Results.Result.FailureWithoutError` | src/common/BuildingBlocks.SharedKernel/Result.cs:29 | the cached failure is a failure whose error is `ErrorCache.None` |
| `Results.Result.FromError` | src/common/BuildingBlocks.SharedKernel/Result.cs:31 | the implicit conversion from an error is `Failure(error)` |
| `Results.Result.Match` | src/common/BuildingBlocks.SharedKernel/Result.cs:33-34 | the success continuation for a success, the failure continuation applied to the error otherwise |
| `Results.ConstructorsWellFormed` | src/common/BuildingBlocks.SharedKernel/Result.cs:13-29 | every constructed result that is a success carries `ErrorCache.None`; `Failure(None)` equals the cached failure; a success never equals a failure |
| `Results.MatchRoundTrip` | src/common/BuildingBlocks.SharedKernel/Result.cs:26-34 | matching a failure with the identity gives back its error; `Match` takes the branch the constructor chose |
| `Results.ValueResult.Success` | src/common/BuildingBlocks.SharedKernel/Result.cs:58 | a success holding the value |
| `Results.ValueResult.Failure` | src/common/BuildingBlocks.SharedKernel/Result.cs:60 | a failure holding the error |
| `Results.ValueResult.FromValue` | src/common/BuildingBlocks.SharedKernel/Result.cs:62 | the implicit conversion from a value is `Success(value)` |
| `Results.ValueResult.FromError` | src/common/BuildingBlocks.SharedKernel/Result.cs:64 | the implicit conversion from an error is `Failure(error)` |
| `Results.ValueResult.Match` | src/common/BuildingBlocks.SharedKernel/Result.cs:66-67 | the success continuation on the value for a success, the failure continuation on the error otherwise |
| `Results.ValueResultMatch` | src/common/BuildingBlocks.SharedKernel/Result.cs:46-67 | success and failure never coincide; `IsFailure` is the negation of `IsSuccess`; `Match` dispatches on which it is |
| `ResultCache.CachedResults` | src/common/BuildingBlocks.SharedKernel/Result.cs:75-81 | each cached result is a failure carrying the same-named cached error, Unauthorized with 401 and Forbidden with 403, and the two differ |
| `ResultExtensions.Create` | src/common/BuildingBlocks.SharedKernel/Result.cs:86 | a failure carrying the given error |
| `ResultExtensions.CreateSuccess` | src/common/BuildingBlocks.SharedKernel/Result.cs:88 | a value result that is a success holding the value |
| `Options.Option.TryGetValue` | src/common/BuildingBlocks.SharedKernel/Option.cs:28-32 | the flag is `HasValue`; the out value is the content, or `default(T)` when absent |
| `Options.Option.GetValueOrDefault` | src/common/BuildingBlocks.SharedKernel/Option.cs:34 | the content when present, `default(T)` otherwise |
| `Options.Option.GetValueOrFail` | src/common/BuildingBlocks.SharedKernel/Option.cs:35 | the content when present, a `NoneException` when absent |
| `Options.Option.Match` | src/common/BuildingBlocks.SharedKernel/Option.cs:37 | the some-continuation on the content when present, the none-continuation otherwise |
| `Options.Option.Map` | src/common/BuildingBlocks.SharedKernel/Option.cs:39-40 | present iff the input is, holding the mapped content |
| `Options.Option.Bind` | src/common/BuildingBlocks.SharedKernel/Option.cs:42-43 | the continuation's option when present, None otherwise |
| `Options.Create` | src/common/BuildingBlocks.SharedKernel/Option.cs:23 | present exactly when the reference is not null, holding the referenced value |
| `Options.FromNullable` | src/common/BuildingBlocks.SharedKernel/Option.cs:46 | the implicit conversion from `T?` agrees with `Create` |
| `Options.ToOption` | src/common/BuildingBlocks.SharedKernel/Option.cs:56 | `ToOption` agrees with the implicit conversion |
| `Options.FirstOrNone` | src/common/BuildingBlocks.SharedKernel/Option.cs:58-63 | None iff no element satisfies the predicate; otherwise the first element that does |
| `Options.SingleOrNone` | src/common/BuildingBlocks.SharedKernel/Option.cs:65-70 | None when nothing matches; throws iff two or more elements match; `Some` of the element when exactly one matches, and a returned `Some` is always the unique match |
| `Options.Select` | src/common/BuildingBlocks.SharedKernel/Option.cs:72-73 | query-syntax `Select` is `Map` |
| `Options.SelectMany` | src/common/BuildingBlocks.SharedKernel/Option.cs:75-77 | present iff both the option and the bound option are, holding the combination of the two values |
| `Options.Where` | src/common/BuildingBlocks.SharedKernel/Option.cs:79-80 | the option itself iff it is absent or its value satisfies the predicate, None otherwise |
| `Options.MapFunctorLaws` | src/common/BuildingBlocks.SharedKernel/Option.cs:39-40 | `Map` preserves identity and composition |
| `Options.BindMonadLaws` | src/common/BuildingBlocks.SharedKernel/Option.cs:42-43 | left identity, right identity and associativity of `Bind`, and `Map` as `Bind` followed by `Some` |
| `Options.MapThenGetValue` | src/common/BuildingBlocks.SharedKernel/Option.cs:23-40 | `Some(v).Map(f).GetValueOrDefault()` is `f(v)`; null converts to None and a reference to `Some` |
| `LegacyOptions.Option.TryGetValue` | src/common/SharedKernel/Option.cs:24-28 | agrees with the shared kernel's `TryGetValue` on the same value |
| `LegacyOptions.Option.Map` | src/common/SharedKernel/Option.cs:30-31 | agrees with the shared kernel's `Map` on the same value |
| `LegacyOptions.Option.Bind` | src/common/SharedKernel/Option.cs:33-34 | the continuation's option when present, None otherwise |
| `LegacyOptions.ToKernel` | src/common/SharedKernel/Option.cs:3-18 | the same option in the shared kernel's type, present iff the input is |
| `LegacyOptions.FromKernel` | src/common/SharedKernel/Option.cs:3-18 | the inverse conversion, a right inverse of `ToKernel` |
| `LegacyOptions.ConversionRoundTrip` | src/common/SharedKernel/Option.cs:3-22 | converting to the shared kernel and back gives the option back |
| `LegacyOptions.BindAgrees` | src/common/SharedKernel/Option.cs:33-34 | `Bind` agrees with the shared kernel's once the continuation is converted |
| `LegacyOptions.FirstOrNone` | src/common/SharedKernel/Option.cs:44-49 | agrees with the shared kernel's `FirstOrNone` |
| `LegacyOptions.SingleOrNone` | src/common/SharedKernel/Option.cs:51-56 | throws exactly when the shared kernel's does, and otherwise agrees with it |
| `LegacyOptions.Select` | src/common/SharedKernel/Option.cs:58-59 | agrees with the shared kernel's `Select` |
| `LegacyOptions.SelectMany` | src/common/SharedKernel/Option.cs:61-63 | agrees with the shared kernel's `SelectMany` |
| `LegacyOptions.Where` | src/common/SharedKernel/Option.cs:65-66 | agrees with the shared kernel's `Where` |
| `Linq.Where` | src/common/BuildingBlocks.Application/Common/Extensions/ClaimExtensions.cs:17-18 | keeps exactly the elements that satisfy the predicate and never grows |
| `Linq.WhereAppend` | src/common/BuildingBlocks.Application/Common/Extensions/ClaimExtensions.cs:17-18 | filtering distributes over concatenation, so it keeps the input's order |
| `Linq.WhereEmpty` | src/common/BuildingBlocks.SharedKernel/Option.cs:58-63 | the filtered sequence is empty iff no element matches |
| `Linq.WhereHead` | src/common/BuildingBlocks.SharedKernel/Option.cs:58-63 | the head of the filtered sequence is the first match of the input |
| `Linq.WhereTwo` | src/common/BuildingBlocks.SharedKernel/Option.cs:65-70 | the filtered sequence has two or more elements iff two positions match |
| `Linq.WhereSingle` | src/common/BuildingBlocks.SharedKernel/Option.cs:65-70 | a filtered sequence of length one holds the unique match |
| `Linq.Select` | src/common/BuildingBlocks.Application/Common/Behaviors/RequestValidationBehavior.cs:20 | element-wise image, same length |
| `Linq.SelectMany` | src/common/BuildingBlocks.Application/Common/Behaviors/RequestValidationBehavior.cs:21 | flattening nothing gives nothing; flattening one element gives its own sequence |
| `Linq.SelectManyAppend` | src/common/BuildingBlocks.Application/Common/Behaviors/RequestValidationBehavior.cs:21 | flattening distributes over concatenation |
| `Linq.NonNull` | src/common/BuildingBlocks.Application/Common/Behaviors/RequestValidationBehavior.cs:22 | keeps exactly the non-null entries |
| `Linq.NonNullAppend` | src/common/BuildingBlocks.Application/Common/Behaviors/RequestValidationBehavior.cs:22 | dropping nulls distributes over concatenation |
| `Linq.DefaultIfEmpty` | src/common/BuildingBlocks.SharedKernel/Option.cs:62 | the sequence itself when it is not empty, the one-element sequence of the default otherwise |
| `Linq.First` | src/common/BuildingBlocks.SharedKernel/Option.cs:63 | the first element of a non-empty sequence |
| `Linq.FirstOrDefault` | src/common/BuildingBlocks.Application/Common/Extensions/ClaimExtensions.cs:13 | null iff the sequence is empty, otherwise its first element |
| `Linq.Single` | src/common/BuildingBlocks.SharedKernel/Option.cs:70 | the only element, or `InvalidOperationException` for none or several |
| `Linq.Aggregate` | src/common/BuildingBlocks.Domain/ValueObject.cs:22-24 | a seedless fold throws iff the sequence is empty, and gives the element back for one element |
| `AuthorizationBehavior.Handle` | src/common/BuildingBlocks.Application/Common/Behaviors/AuthorizationBehavior.cs:13-23 | `next` is invoked iff the caller is authenticated, and then its response is passed on; otherwise no call is made and the response is the Unauthorized failure |
| `AuthorizationBehavior.DecidedByAuthenticationAlone` | src/common/BuildingBlocks.Application/Common/Behaviors/AuthorizationBehavior.cs:13-23 | the outcome never depends on the request, nor on `next` when the caller is rejected |
| `SensitiveRequestBehavior.Handle` | src/common/BuildingBlocks.Application/Common/Behaviors/SensitiveRequestBehavior.cs:23-38 | exactly one blacklist lookup, first, keyed by the rendered user id; `next` is invoked iff the lookup is not a success; a listed caller gets the Unauthorized failure, anyone else `next`'s response |
| `SensitiveRequestBehavior.ListedCallerIsUnauthorized` | src/common/BuildingBlocks.Application/Common/Behaviors/SensitiveRequestBehavior.cs:28-35 | the request does not matter, and a listed caller is never answered Forbidden |
| `SensitiveRequestBehavior.IdNeverMatters` | src/common/BuildingBlocks.Application/Common/Behaviors/SensitiveRequestBehavior.cs:26-28 | with the record's printout as key, any two callers with ids get the same run, and the lookup key is `Option { HasValue = True }` |
| `SensitiveRequestBehavior.ListedIdIsNotRefused` | src/common/BuildingBlocks.Application/Common/Behaviors/SensitiveRequestBehavior.cs:26-37 | with only "user-1" listed, caller "user-1" still reaches `next` |
| `SensitiveRequestBehavior.HandleById` | src/common/BuildingBlocks.Application/Common/Behaviors/SensitiveRequestBehavior.cs:23-38 | keyed by the id itself: one lookup of that id first; a listed id gets Unauthorized without `next`, an unlisted one reaches `next` |
| `SensitiveRequestBehavior.ListedIdIsRefused` | src/common/BuildingBlocks.Application/Common/Behaviors/SensitiveRequestBehavior.cs:26-35 | keyed by the id, listed "user-1" is refused and unlisted "user-2" reaches `next` |
| `SensitiveRequestBehavior.MissingUserIdIsLookedUp` | src/common/BuildingBlocks.Application/Common/Behaviors/SensitiveRequestBehavior.cs:26-37 | an absent user id whose rendering is not listed lets the request through |
| `LockBehavior.Host.TakeLockAsync` | src/common/BuildingBlocks.Application/Common/Behaviors/LockBehavior.cs:22 | the lock is granted iff the key was free, and the key is held afterwards |
| `LockBehavior.Host.ReleaseLockAsync` | src/common/BuildingBlocks.Application/Common/Behaviors/LockBehavior.cs:37 | the key is free afterwards |
| `LockBehavior.Host.Next` | src/common/BuildingBlocks.Application/Common/Behaviors/LockBehavior.cs:31 | `next`'s response, returned or faulted, passes through unchanged |
| `LockBehavior.Handle` | src/common/BuildingBlocks.Application/Common/Behaviors/LockBehavior.cs:19-40 | `next`'s response (a fault included) when the lock was granted, Forbidden otherwise; the calls made; the lock is still held afterwards iff it was granted and immediate release was not asked for |
| `LockBehavior.TakeLockOnceFirst` | src/common/BuildingBlocks.Application/Common/Behaviors/LockBehavior.cs:22 | the lock is taken first and exactly once, with the request's key and expiration |
| `LockBehavior.ReleaseDiscipline` | src/common/BuildingBlocks.Application/Common/Behaviors/LockBehavior.cs:25-38 | `next` runs iff the lock was granted; release happens exactly once, right after `next`, when it was granted and immediate release was asked for, and never otherwise |
| `RequestValidationBehavior.FailuresInRegistrationOrder` | src/common/BuildingBlocks.Application/Common/Behaviors/RequestValidationBehavior.cs:20-23 | the failures of a list of validators are those of its first part followed by those of the rest |
| `RequestValidationBehavior.FailuresOfOne` | src/common/BuildingBlocks.Application/Common/Behaviors/RequestValidationBehavior.cs:20-22 | one validator contributes its non-null failures in its own order |
| `RequestValidationBehavior.JoinedAppend` | src/common/BuildingBlocks.Application/Common/Behaviors/RequestValidationBehavior.cs:24 | the message text distributes over concatenation of failures |
| `RequestValidationBehavior.JoinedLast` | src/common/BuildingBlocks.Application/Common/Behaviors/RequestValidationBehavior.cs:24 | one more failure appends its message and a line terminator |
| `RequestValidationBehavior.JoinedEmptyIff` | src/common/BuildingBlocks.Application/Common/Behaviors/RequestValidationBehavior.cs:24-29 | the text is at least as long as the number of failures, and empty iff there are none |
| `RequestValidationBehavior.JoinedContainsEach` | src/common/BuildingBlocks.Application/Common/Behaviors/RequestValidationBehavior.cs:24-27 | every failure's message appears in the text, followed by a line terminator |
| `RequestValidationBehavior.AppendLines` | src/common/BuildingBlocks.Application/Common/Behaviors/RequestValidationBehavior.cs:18-27 | the `AppendLine` loop builds exactly the joined text |
| `RequestValidationBehavior.ValidateCalls` | src/common/BuildingBlocks.Application/Common/Behaviors/RequestValidationBehavior.cs:20 | every validator runs once, in registration order |
| `RequestValidationBehavior.Handle` | src/common/BuildingBlocks.Application/Common/Behaviors/RequestValidationBehavior.cs:13-37 | all validators run; with no failures `next` is invoked and passed on; otherwise `next` is not invoked and the response is a failure whose error has an empty code and the non-empty joined text, which is not the cached BadRequest |
| `RequestValidationBehavior.NameRequiredScenario` | src/common/BuildingBlocks.Application/Common/Behaviors/RequestValidationBehavior.cs:16-27 | a validator reporting "Name is required" yields exactly that message and one line terminator |
| `ClaimExtensions.StringEqualsIsEquivalence` | src/common/BuildingBlocks.Application/Common/Extensions/ClaimExtensions.cs:18 | both comparisons are equivalences, and ordinal equality implies case-insensitive equality |
| `ClaimExtensions.GetClaims` | src/common/BuildingBlocks.Application/Common/Extensions/ClaimExtensions.cs:15-18 | no more claims than the input, each of the given type under the comparison (case-insensitive by default), and every such claim of the input among them |
| `ClaimExtensions.GetClaimsInOrder` | src/common/BuildingBlocks.Application/Common/Extensions/ClaimExtensions.cs:15-18 | the matching claims keep their original order |
| `ClaimExtensions.GetClaim` | src/common/BuildingBlocks.Application/Common/Extensions/ClaimExtensions.cs:8-13 | None iff no claim has the type; otherwise the value of the first claim that has it |
| `ClaimExtensions.GetUserId` | src/common/BuildingBlocks.Application/Common/Extensions/ClaimExtensions.cs:21-24 | None iff there is no name-identifier claim in any letter case; otherwise the first such claim's value |
| `Entities.BaseEntity.constructor` | src/common/BuildingBlocks.Domain/BaseEntity.cs:5 | a new entity has no event list: `DomainEvents` is null |
| `Entities.BaseEntity.DomainEvents` | src/common/BuildingBlocks.Domain/BaseEntity.cs:10 | the view is the entity's own list object (null while there is none), not a copy |
| `Entities.BaseEntity.ClearDomainEvents` | src/common/BuildingBlocks.Domain/BaseEntity.cs:12-15 | the same list object, emptied in place where it exists; a missing list stays missing |
| `Entities.BaseEntity.AddDomainEvent` | src/common/BuildingBlocks.Domain/BaseEntity.cs:21-26 | an existing list stays the same object and gets the event appended at the end; otherwise a new list holding just the event |
| `ValueObjects.SequenceEqualIsEquality` | src/common/BuildingBlocks.Domain/ValueObject.cs:19 | `SequenceEqual` holds iff the sequences are equal |
| `ValueObjects.Equals` | src/common/BuildingBlocks.Domain/ValueObject.cs:7-20 | false for null; otherwise true iff the runtime types and the components agree |
| `ValueObjects.EqualsIsEquivalence` | src/common/BuildingBlocks.Domain/ValueObject.cs:7-20 | value-object equality is reflexive, symmetric and transitive |
| `ValueObjects.GetHashCode` | src/common/BuildingBlocks.Domain/ValueObject.cs:22-24 | throws iff there are no components; otherwise the XOR of the component hashes, with 0 for null |
| `ValueObjects.FoldXorIsXorAll` | src/common/BuildingBlocks.Domain/ValueObject.cs:24 | folding with XOR from an accumulator gives the accumulator XOR all elements |
| `ValueObjects.AggregateXorIsXorAll` | src/common/BuildingBlocks.Domain/ValueObject.cs:22-24 | the seedless XOR aggregate of a non-empty sequence is the XOR of all its elements |
| `ValueObjects.EqualObjectsHashAlike` | src/common/BuildingBlocks.Domain/ValueObject.cs:7-24 | equal value objects have equal hashes |
| `ValueObjects.PairCancels` | src/common/BuildingBlocks.Domain/ValueObject.cs:24 | a hash XORed with itself is 0 |
| `ValueObjects.RepeatedComponentsCollide` | src/common/BuildingBlocks.Domain/ValueObject.cs:22-24 | two unequal value objects, each repeating one component, both hash to 0 |
| `EntityIds.GetEqualityComponents` | src/common/BuildingBlocks.Domain/EntityId.cs:6-9 | exactly one component, the value |
| `EntityIds.IdEqualityAndHash` | src/common/BuildingBlocks.Domain/EntityId.cs:3-9 | under the inherited `ValueObject` members, two ids of one record type are equal iff their values are, and the base hash of an id is its value's hash |
| `EntityIds.RecordEquals` | src/common/BuildingBlocks.Domain/EntityId.cs:3 | the record's generated equality: equal iff the other is not null and has the same record type and value |
| `EntityIds.RecordHashCode` | src/common/BuildingBlocks.Domain/EntityId.cs:3 | the record's generated hash depends on the value's hash alone |
| `EntityIds.RecordHashOfEqualIds` | src/common/BuildingBlocks.Domain/EntityId.cs:3-9 | equal ids hash alike under the generated hash, which differs from the value's own hash (a value hashing to 1) |
| `EntityIds.GuidEntityId` | src/common/BuildingBlocks.Domain/EntityId.cs:13 | the GUID id holds the given GUID |

## Findings

| source | as written | input that shows it | evidently intended | confidence | as-written member | corrected member |
|---|---|---|---|---|---|---|
| src/common/BuildingBlocks.Application/Common/Behaviors/SensitiveRequestBehavior.cs:26 | the blacklist is asked about `UserId.ToString()`, the record printout `Option { HasValue = True }` | only "user-1" listed; caller "user-1" reaches `next` | the lookup is keyed by the user id itself | high; not executed | `SensitiveRequestBehavior.ListedIdIsNotRefused` | `SensitiveRequestBehavior.HandleById` |

## Left out

- **Asynchrony, dependency injection and cancellation.** `Task`, `await`, MediatR
  registration and `CancellationToken` are not modelled. Each gate is one call that
  receives `next`'s eventual response as a value.
- **The current-user service.** `ICurrentUserService` is not part of this model. Whether
  the caller is authenticated, and the user id, are parameters of the gates.
- **Rendering the user id.** The sensitive-request gate's `render` parameter stands for
  `UserId.ToString()`. `RecordRendering` gives what the record prints: `Option { HasValue = True }`
  or `Option { HasValue = False }`, never the id. See Findings.
- **Collaborators.** The blacklist manager, the cache service and the validators are
  parameters or the `Host` object. Their implementations are not part of this model.
- **Collaborator faults.** The model's collaborators always answer. A fault the source would
  propagate is not modelled: from `IsBlackListedAsync`, from `TakeLockAsync` (outside the `try`,
  so nothing is released), from `ReleaseLockAsync` in the `finally` (replacing `next`'s
  response or fault), or from a validator's `Validate`.
- **`ToTypedResult<TResponse>()` and the `(TResponse)` casts.** These are taken as the
  identity on results. A cast that fails at run time is not modelled.
- **The line terminator.** `Environment.NewLine` is fixed to `"\n"`; on Windows it is
  `"\r\n"`.
- **Lock expiry.** The expiration is recorded in the call, but locks never expire in the
  model, so a lock not released immediately stays held.
- **`ReleaseLockAsync`'s answer.** The gate ignores it, as the source does.
- **Non-ASCII case folding.** `OrdinalIgnoreCase` folds ASCII letters only; .NET also
  folds the rest of Unicode.
- **`ReferenceEquals` in `ValueObject.Equals`.** The shortcut is not modelled. Values have
  no identity here, and comparing the components gives the same answer for an object
  compared with itself.
- **`default(T)` and `typeof(T).Name`.** These are parameters (`defaultValue`, `typeName`)
  of the option operations that use them.
- **Hashes.** Component hashes are a `hash` parameter returning 32-bit values.
- EntityIds.IdEqualityAndHash: states the inherited `ValueObject.Equals` and `GetHashCode`
  applied to an id. The record's own compiler-generated overrides are `RecordEquals` and
  `RecordHashCode`. The generated members of other concrete value-object records, which
  compare and hash their own fields after the base ones, are not part of this model.
- **Linq.First:** requires a non-empty sequence. It is only applied after `DefaultIfEmpty`,
  which never yields an empty sequence. The exception `First` throws on an empty sequence
  is therefore not modelled.
- **Outbox and other domain types.** `GuidEntityId.Create()` draws a random GUID, so the
  model takes the GUID as an argument. `OutboxMessage`, `IOutbox`, `BaseDomainEvent`,
  `AggregateRoot`, the `SharedKernel` value object and the hashing helper are not part
  of this model.
- **The composed pipeline.** The order in which the gates run is set by container
  registration and is not modelled. Each gate is modelled on its own.
