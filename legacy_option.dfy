/** The older `SharedKernel.Option<T>`: the same presence/absence value without
    `HasValue`, `Create`, `Match` or the implicit conversion. Each operation is
    stated against the shared-kernel `Option` through the obvious conversion. */
module LegacyOptions {
  import opened Runtime
  import Linq
  import Kernel = Options

  datatype Option<T> = None | Some(content: T) {

    /** `TryGetValue(out value)`; an absent option hands out `defaultValue`. */
    function TryGetValue(defaultValue: T): (r: (bool, T))
      ensures r == ToKernel(this).TryGetValue(defaultValue)
    {
      if Some? then (true, content) else (false, defaultValue)
    }

    function Map<U>(f: T -> U): (r: Option<U>)
      ensures ToKernel(r) == ToKernel(this).Map(f)
    {
      if Some? then Option<U>.Some(f(content)) else Option<U>.None
    }

    function Bind<U>(f: T -> Option<U>): (r: Option<U>)
      ensures !Some? ==> r == None
      ensures Some? ==> r == f(content)
    {
      if Some? then f(content) else Option<U>.None
    }
  }

  /** The same value as a shared-kernel option. */
  function ToKernel<T>(o: Option<T>): (k: Kernel.Option<T>)
    ensures k.HasValue() <==> o.Some?
  {
    if o.Some? then Kernel.Some(o.content) else Kernel.None
  }

  /** The conversion is a bijection onto the shared-kernel options. */
  function FromKernel<T>(k: Kernel.Option<T>): (o: Option<T>)
    ensures ToKernel(o) == k
  {
    if k.Some? then Some(k.value) else None
  }

  lemma ConversionRoundTrip<T>(o: Option<T>)
    ensures FromKernel(ToKernel(o)) == o
  {
  }

  /** `Bind` agrees with the shared kernel's once the continuation is converted. */
  lemma BindAgrees<T, U>(o: Option<T>, f: T -> Option<U>)
    ensures ToKernel(o.Bind(f)) == ToKernel(o).Bind(x => ToKernel(f(x)))
  {
  }

  function FirstOrNone<T>(source: seq<T>, p: T -> bool): (r: Option<T>)
    ensures ToKernel(r) == Kernel.FirstOrNone(source, p)
  {
    Linq.First(Linq.DefaultIfEmpty(Linq.Select(Linq.Where(source, p), x => Some(x)), None))
  }

  function SingleOrNone<T>(source: seq<T>, p: T -> bool): (r: Attempt<Option<T>>)
    ensures r.Threw? <==> Kernel.SingleOrNone(source, p).Threw?
    ensures r.Returned? ==> ToKernel(r.value) == Kernel.SingleOrNone(source, p).value
  {
    Linq.Single(Linq.DefaultIfEmpty(Linq.Select(Linq.Where(source, p), x => Some(x)), None))
  }

  function Select<T, U>(o: Option<T>, f: T -> U): (r: Option<U>)
    ensures ToKernel(r) == Kernel.Select(ToKernel(o), f)
  {
    o.Map(f)
  }

  function SelectMany<T, S, U>(o: Option<T>, bind: T -> Option<S>, combine: (T, S) -> U): (r: Option<U>)
    ensures ToKernel(r) == Kernel.SelectMany(ToKernel(o), x => ToKernel(bind(x)), combine)
  {
    o.Bind(original => bind(original).Map(result => combine(original, result)))
  }

  function Where<T>(o: Option<T>, p: T -> bool): (r: Option<T>)
    ensures ToKernel(r) == Kernel.Where(ToKernel(o), p)
  {
    o.Bind(v => if p(v) then o else None)
  }
}
