/** `Option<T>` of the shared kernel: a value that is present or absent, used
    in place of null, with its functor/monad operations and LINQ extensions. */
module Options {
  import opened Runtime
  import Linq

  datatype Option<T> = None | Some(value: T) {

    predicate HasValue() {
      Some?
    }

    /** `TryGetValue(out value)`: the flag, and the content; an absent option
        hands out `default(T)`, which is `defaultValue` here. */
    function TryGetValue(defaultValue: T): (r: (bool, T))
      ensures r.0 == HasValue()
      ensures HasValue() ==> r.1 == value
      ensures !HasValue() ==> r.1 == defaultValue
    {
      if Some? then (true, value) else (false, defaultValue)
    }

    /** `GetValueOrDefault()`: the content, `default(T)` when absent. */
    function GetValueOrDefault(defaultValue: T): (r: T)
      ensures HasValue() ==> r == value
      ensures !HasValue() ==> r == defaultValue
    {
      if Some? then value else defaultValue
    }

    /** `GetValueOrFail()`: the content, or a NoneException naming the type. */
    function GetValueOrFail(typeName: string): (r: Attempt<T>)
      ensures HasValue() ==> r == Returned(value)
      ensures !HasValue() ==> r.Threw? && r.exception.NoneException?
    {
      if Some? then Returned(value)
      else Threw(NoneException("Expected value of type " + typeName + " but got None"))
    }

    function Match<R>(none: () -> R, some: T -> R): (r: R)
      ensures HasValue() ==> r == some(value)
      ensures !HasValue() ==> r == none()
    {
      if Some? then some(value) else none()
    }

    function Map<U>(f: T -> U): (r: Option<U>)
      ensures r.HasValue() <==> HasValue()
      ensures HasValue() ==> r.value == f(value)
    {
      if Some? then Option<U>.Some(f(value)) else Option<U>.None
    }

    function Bind<U>(f: T -> Option<U>): (r: Option<U>)
      ensures !HasValue() ==> r == None
      ensures HasValue() ==> r == f(value)
    {
      if Some? then f(value) else Option<U>.None
    }
  }

  /** `Option<T>.Create(value)`: present exactly when the reference is not null. */
  function Create<T>(value: Nullable<T>): (r: Option<T>)
    ensures r.HasValue() <==> value.Ref?
    ensures r.HasValue() ==> r.value == value.value
  {
    if value.Ref? then Some(value.value) else None
  }

  /** The implicit conversion from `T?`. */
  function FromNullable<T>(value: Nullable<T>): (r: Option<T>)
    ensures r.HasValue() <==> value.Ref?
    ensures r.HasValue() ==> r.value == value.value
  {
    Create(value)
  }

  /** `ToOption()`. */
  function ToOption<T>(value: Nullable<T>): (r: Option<T>)
    ensures r == FromNullable(value)
  {
    Create(value)
  }

  /** `FirstOrNone(predicate)`: the first element satisfying it, or None. */
  function FirstOrNone<T>(source: seq<T>, p: T -> bool): (r: Option<T>)
    ensures r.None? <==> forall i :: 0 <= i < |source| ==> !p(source[i])
    ensures r.Some? ==> exists k :: Linq.FirstMatchAt(source, p, k) && source[k] == r.value
  {
    Linq.WhereEmpty(source, p);
    Linq.WhereHead(source, p);
    Linq.First(Linq.DefaultIfEmpty(Linq.Select(Linq.Where(source, p), x => Some(x)), None))
  }

  /** `SingleOrNone(predicate)`: None for no match, the match for exactly one,
      and InvalidOperationException for two or more. */
  function SingleOrNone<T>(source: seq<T>, p: T -> bool): (r: Attempt<Option<T>>)
    ensures (forall i :: 0 <= i < |source| ==> !p(source[i])) ==> r == Returned(None)
    ensures r.Threw? <==> Linq.TwoMatches(source, p)
    ensures r.Returned? && r.value.Some? ==>
      exists k :: 0 <= k < |source| && source[k] == r.value.value && p(source[k]) &&
        forall j :: 0 <= j < |source| && j != k ==> !p(source[j])
    ensures forall k :: 0 <= k < |source| && p(source[k]) && !Linq.TwoMatches(source, p) ==>
      r == Returned(Some(source[k]))
  {
    Linq.WhereEmpty(source, p);
    Linq.WhereTwo(source, p);
    Linq.WhereSingle(source, p);
    Linq.Single(Linq.DefaultIfEmpty(Linq.Select(Linq.Where(source, p), x => Some(x)), None))
  }

  /** `Select(map)` on an option is `Map`. */
  function Select<T, U>(o: Option<T>, f: T -> U): (r: Option<U>)
    ensures r.HasValue() <==> o.HasValue()
    ensures r.HasValue() ==> r.value == f(o.value)
  {
    o.Map(f)
  }

  /** `SelectMany(bind, combine)`: present when both steps are, combining the
      original value with the inner one. */
  function SelectMany<T, S, U>(o: Option<T>, bind: T -> Option<S>, combine: (T, S) -> U): (r: Option<U>)
    ensures r.HasValue() <==> o.HasValue() && bind(o.value).HasValue()
    ensures r.HasValue() ==> r.value == combine(o.value, bind(o.value).value)
  {
    o.Bind(original => bind(original).Map(result => combine(original, result)))
  }

  /** `Where(predicate)`: the option itself when its value satisfies the predicate, else None. */
  function Where<T>(o: Option<T>, p: T -> bool): (r: Option<T>)
    ensures r == o <==> o.None? || p(o.value)
    ensures r != o ==> r == None
  {
    o.Bind(v => if p(v) then o else None)
  }

  /** `Map` is a functor: it preserves identity and composition. */
  lemma MapFunctorLaws<T, U, W>(o: Option<T>, f: T -> U, g: U -> W)
    ensures o.Map(x => x) == o
    ensures o.Map(x => g(f(x))) == o.Map(f).Map(g)
  {
  }

  /** `Bind` is a monad with `Some` as unit. */
  lemma BindMonadLaws<T, U, W>(v: T, o: Option<T>, f: T -> Option<U>, g: U -> Option<W>)
    ensures Option<T>.Some(v).Bind(f) == f(v)
    ensures o.Bind(x => Some(x)) == o
    ensures o.Bind(f).Bind(g) == o.Bind(x => f(x).Bind(g))
    ensures o.Map(x => f(x)) == o.Bind(x => Some(f(x)))
  {
  }

  /** `Some(v).Map(f).GetValueOrDefault()` is `f(v)`; a null converts to None. */
  lemma MapThenGetValue<T, U>(v: T, f: T -> U, d: U)
    ensures Some(v).Map(f).GetValueOrDefault(d) == f(v)
    ensures Create<T>(Null) == None && Create(Ref(v)) == Some(v)
  {
  }
}
