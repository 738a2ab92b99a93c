/** `LockBehavior.Handle`: take the request's lock, run `next` only if it was
    granted, and in the cleanup step release it again when the request asks
    for immediate release, whether `next` returned or faulted. */
module LockBehavior {
  import opened Runtime
  import opened Results
  import ResultCache
  import opened Pipeline

  /** The `ILockRequest` fields: the lock's key, its expiration in seconds,
      and whether to release it as soon as the request is done. */
  datatype LockRequest = LockRequest(key: string, expiration: int, releaseImmediately: bool)

  /** The calls one run makes, once it is known whether the lock was granted. */
  function LockCalls(request: LockRequest, acquired: bool): seq<Call> {
    [TakeLock(request.key, request.expiration)] +
    (if !acquired then []
     else [InvokeNext] + (if request.releaseImmediately then [ReleaseLock(request.key)] else []))
  }

  /** The world the behavior talks to: the cache service's lock table (the keys
      currently held) and the log of every call made on the cache or on `next`. */
  class Host {
    var held: set<string>
    var log: seq<Call>

    constructor (held: set<string>)
      ensures this.held == held && log == []
    {
      this.held := held;
      log := [];
    }

    /** `TakeLockAsync`: the first acquirer of a key wins, any later one is refused at once. */
    method TakeLockAsync(key: string, expiration: int) returns (acquired: bool)
      modifies this
      ensures acquired <==> key !in old(held)
      ensures held == old(held) + {key}
      ensures log == old(log) + [TakeLock(key, expiration)]
    {
      acquired := key !in held;
      held := held + {key};
      log := log + [TakeLock(key, expiration)];
    }

    /** `ReleaseLockAsync`: the key is free afterwards; the answer says whether it was held. */
    method ReleaseLockAsync(key: string) returns (released: bool)
      modifies this
      ensures released <==> key in old(held)
      ensures held == old(held) - {key}
      ensures log == old(log) + [ReleaseLock(key)]
    {
      released := key in held;
      held := held - {key};
      log := log + [ReleaseLock(key)];
    }

    /** Awaiting `next()`: its response, returned or faulted, is passed on as it is. */
    method Next(next: Response) returns (response: Response)
      modifies this
      ensures response == next
      ensures held == old(held) && log == old(log) + [InvokeNext]
    {
      response := next;
      log := log + [InvokeNext];
    }
  }

  method Handle(request: LockRequest, host: Host, next: Response) returns (response: Response)
    modifies host
    ensures var acquired := request.key !in old(host.held);
      && response == (if acquired then next else Returned(ResultCache.Forbidden))
      && host.log == old(host.log) + LockCalls(request, acquired)
      && host.held == if acquired && !request.releaseImmediately then old(host.held) + {request.key}
                      else old(host.held)
  {
    var acquired := host.TakeLockAsync(request.key, request.expiration);
    // try
    if !acquired {
      response := Returned(ResultCache.Forbidden);
    } else {
      response := host.Next(next);
    }
    // finally
    if acquired && request.releaseImmediately {
      var released := host.ReleaseLockAsync(request.key);
    }
  }

  /** The lock is taken exactly once, first of all, with the request's key and expiration. */
  lemma {:induction false} TakeLockOnceFirst(request: LockRequest, acquired: bool)
    ensures LockCalls(request, acquired)[0] == TakeLock(request.key, request.expiration)
    ensures Occurrences(LockCalls(request, acquired), TakeLock(request.key, request.expiration)) == 1
  {
    var take := TakeLock(request.key, request.expiration);
    var rest := LockCalls(request, acquired)[1..];
    assert LockCalls(request, acquired) == [take] + rest;
    OccurrencesAppend([take], rest, take);
    assert take !in rest;
  }

  /** Release discipline: `next` runs iff the lock was granted; the lock is
      released exactly once, after `next`, when it was granted and immediate
      release was asked for, and never otherwise. */
  lemma {:induction false} ReleaseDiscipline(request: LockRequest, acquired: bool)
    ensures InvokeNext in LockCalls(request, acquired) <==> acquired
    ensures Occurrences(LockCalls(request, acquired), ReleaseLock(request.key)) ==
      if acquired && request.releaseImmediately then 1 else 0
    ensures forall i :: 0 <= i < |LockCalls(request, acquired)| && LockCalls(request, acquired)[i].ReleaseLock? ==>
      acquired && request.releaseImmediately && i > 0 && LockCalls(request, acquired)[i - 1] == InvokeNext
  {
    var calls := LockCalls(request, acquired);
    var release := ReleaseLock(request.key);
    if acquired && request.releaseImmediately {
      assert calls == [TakeLock(request.key, request.expiration), InvokeNext] + [release];
      OccurrencesAppend([TakeLock(request.key, request.expiration), InvokeNext], [release], release);
    }
  }

  /** A run whose lock is refused answers Forbidden and touches nothing else. */
  method RefusedLockScenario(next: Response)
  {
    var host := new Host({"test-key"});
    var response := Handle(LockRequest("test-key", 30, true), host, next);
    assert response == Returned(ResultCache.Forbidden);
    assert host.log == [TakeLock("test-key", 30)];
    assert host.held == {"test-key"};
  }

  /** A faulting `next` still has its lock released, and the fault comes out unchanged. */
  method FaultingNextScenario()
  {
    var host := new Host({});
    var fault := Threw(HandlerException("Test exception"));
    var response := Handle(LockRequest("test-key", 30, true), host, fault);
    assert response == fault;
    assert host.log == [TakeLock("test-key", 30), InvokeNext, ReleaseLock("test-key")];
    assert host.held == {};
  }
}
