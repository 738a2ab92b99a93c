/** The LINQ operators the building blocks use, over finite sequences
    (every enumerable in the core is finite and enumerated once). */
module Linq {
  import opened Runtime

  /** `k` is the index of the first element of `s` that satisfies `p`. */
  ghost predicate FirstMatchAt<T>(s: seq<T>, p: T -> bool, k: int) {
    0 <= k < |s| && p(s[k]) && forall j :: 0 <= j < k ==> !p(s[j])
  }

  /** Some two distinct elements of `s` satisfy `p`. */
  ghost predicate TwoMatches<T>(s: seq<T>, p: T -> bool) {
    exists i, j :: 0 <= i < j < |s| && p(s[i]) && p(s[j])
  }

  /** `Where`: the elements of `s` that satisfy `p`, in their original order. */
  function Where<T>(s: seq<T>, p: T -> bool): (r: seq<T>)
    ensures |r| <= |s|
    ensures forall i :: 0 <= i < |r| ==> p(r[i]) && r[i] in s
    ensures forall i :: 0 <= i < |s| && p(s[i]) ==> s[i] in r
  {
    if s == [] then []
    else if p(s[0]) then [s[0]] + Where(s[1..], p)
    else Where(s[1..], p)
  }

  /** Filtering distributes over concatenation, so `Where` keeps the order of its input. */
  lemma {:induction false} WhereAppend<T>(a: seq<T>, b: seq<T>, p: T -> bool)
    ensures Where(a + b, p) == Where(a, p) + Where(b, p)
  {
    if a == [] {
      assert a + b == b;
    } else {
      assert (a + b)[1..] == a[1..] + b;
      WhereAppend(a[1..], b, p);
    }
  }

  /** `Where` is empty exactly when no element satisfies `p`. */
  lemma WhereEmpty<T>(s: seq<T>, p: T -> bool)
    ensures Where(s, p) == [] <==> forall i :: 0 <= i < |s| ==> !p(s[i])
  {
    if Where(s, p) != [] {
      var x := Where(s, p)[0];
      var i :| 0 <= i < |s| && s[i] == x;
      assert p(s[i]);
    }
  }

  /** The first element `Where` yields is the first match of the input. */
  lemma {:induction false} WhereHead<T>(s: seq<T>, p: T -> bool)
    ensures Where(s, p) != [] ==> exists k :: FirstMatchAt(s, p, k) && s[k] == Where(s, p)[0]
  {
    if s == [] {
    } else if p(s[0]) {
      assert FirstMatchAt(s, p, 0);
    } else if Where(s[1..], p) != [] {
      WhereHead(s[1..], p);
      var k :| FirstMatchAt(s[1..], p, k) && s[1..][k] == Where(s[1..], p)[0];
      assert FirstMatchAt(s, p, k + 1);
    }
  }

  /** `Where` yields at least two elements exactly when two elements match. */
  lemma {:induction false} WhereTwo<T>(s: seq<T>, p: T -> bool)
    ensures |Where(s, p)| >= 2 <==> TwoMatches(s, p)
  {
    if s == [] {
    } else if p(s[0]) {
      WhereTwo(s[1..], p);
      if |Where(s, p)| >= 2 {
        var x := Where(s[1..], p)[0];
        var j :| 0 <= j < |s[1..]| && s[1..][j] == x;
        assert p(s[0]) && p(s[j + 1]);
      }
      if TwoMatches(s, p) {
        var i, j :| 0 <= i < j < |s| && p(s[i]) && p(s[j]);
        assert s[1..][j - 1] == s[j];
        assert Where(s[1..], p) != [];
      }
    } else {
      WhereTwo(s[1..], p);
      if TwoMatches(s[1..], p) {
        var i, j :| 0 <= i < j < |s[1..]| && p(s[1..][i]) && p(s[1..][j]);
        assert p(s[i + 1]) && p(s[j + 1]);
      }
      if TwoMatches(s, p) {
        var i, j :| 0 <= i < j < |s| && p(s[i]) && p(s[j]);
        assert i > 0;
        assert p(s[1..][i - 1]) && p(s[1..][j - 1]);
      }
    }
  }

  /** When `Where` yields exactly one element, it is the one and only match. */
  lemma WhereSingle<T>(s: seq<T>, p: T -> bool)
    ensures |Where(s, p)| == 1 ==>
      exists k :: 0 <= k < |s| && s[k] == Where(s, p)[0] && p(s[k]) &&
        forall j :: 0 <= j < |s| && j != k ==> !p(s[j])
  {
    if |Where(s, p)| == 1 {
      WhereHead(s, p);
      WhereTwo(s, p);
      var k :| FirstMatchAt(s, p, k) && s[k] == Where(s, p)[0];
      forall j | 0 <= j < |s| && j != k
        ensures !p(s[j])
      {
        if j > k {
          assert p(s[j]) ==> TwoMatches(s, p);
        }
      }
    }
  }

  /** `Select`: `f` applied to every element, in order. */
  function Select<T, U>(s: seq<T>, f: T -> U): (r: seq<U>)
    ensures |r| == |s|
    ensures forall i :: 0 <= i < |s| ==> r[i] == f(s[i])
  {
    if s == [] then [] else [f(s[0])] + Select(s[1..], f)
  }

  /** `SelectMany`: the sequences `f` gives for each element, concatenated in order. */
  function SelectMany<T, U>(s: seq<T>, f: T -> seq<U>): (r: seq<U>)
    ensures s == [] ==> r == []
    ensures |s| == 1 ==> r == f(s[0])
  {
    if s == [] then [] else f(s[0]) + SelectMany(s[1..], f)
  }

  /** `SelectMany` distributes over concatenation of its source. */
  lemma {:induction false} SelectManyAppend<T, U>(a: seq<T>, b: seq<T>, f: T -> seq<U>)
    ensures SelectMany(a + b, f) == SelectMany(a, f) + SelectMany(b, f)
  {
    if a == [] {
      assert a + b == b;
    } else {
      assert (a + b)[1..] == a[1..] + b;
      SelectManyAppend(a[1..], b, f);
    }
  }

  /** `Where(x => x != null)`, with the element type narrowed to the non-null one. */
  function NonNull<T>(s: seq<Nullable<T>>): (r: seq<T>)
    ensures |r| <= |s|
    ensures forall i :: 0 <= i < |r| ==> Ref(r[i]) in s
    ensures forall i :: 0 <= i < |s| && s[i].Ref? ==> s[i].value in r
  {
    if s == [] then []
    else if s[0].Ref? then [s[0].value] + NonNull(s[1..])
    else NonNull(s[1..])
  }

  /** Dropping nulls distributes over concatenation. */
  lemma {:induction false} NonNullAppend<T>(a: seq<Nullable<T>>, b: seq<Nullable<T>>)
    ensures NonNull(a + b) == NonNull(a) + NonNull(b)
  {
    if a == [] {
      assert a + b == b;
    } else {
      assert (a + b)[1..] == a[1..] + b;
      NonNullAppend(a[1..], b);
    }
  }

  /** `DefaultIfEmpty(d)`: the sequence itself, or `[d]` when it is empty. */
  function DefaultIfEmpty<T>(s: seq<T>, d: T): (r: seq<T>)
    ensures |r| >= 1
    ensures s != [] ==> r == s
    ensures s == [] ==> r == [d]
  {
    if s == [] then [d] else s
  }

  /** `First()`; every caller in the core passes a non-empty sequence. */
  function First<T>(s: seq<T>): (r: T)
    requires s != []
    ensures r in s && r == s[0]
  {
    s[0]
  }

  /** `FirstOrDefault()` for a sequence of references: null when it is empty. */
  function FirstOrDefault<T>(s: seq<T>): (r: Nullable<T>)
    ensures r.Null? <==> s == []
    ensures r.Ref? ==> r.value == s[0]
  {
    if s == [] then Null else Ref(s[0])
  }

  /** `Single()`: the only element, or InvalidOperationException. */
  function Single<T>(s: seq<T>): (r: Attempt<T>)
    ensures r.Returned? <==> |s| == 1
    ensures r.Returned? ==> r.value == s[0]
    ensures r.Threw? ==> r.exception.InvalidOperationException?
  {
    if |s| == 1 then Returned(s[0])
    else if s == [] then Threw(InvalidOperationException("Sequence contains no elements"))
    else Threw(InvalidOperationException("Sequence contains more than one element"))
  }

  /** Folding `f` over `s` from the left, starting from `acc`. */
  function FoldLeft<T>(acc: T, s: seq<T>, f: (T, T) -> T): T
    decreases s
  {
    if s == [] then acc else FoldLeft(f(acc, s[0]), s[1..], f)
  }

  /** `Aggregate(f)` without a seed: the first element is the seed, and an
      empty sequence throws InvalidOperationException. */
  function Aggregate<T>(s: seq<T>, f: (T, T) -> T): (r: Attempt<T>)
    ensures r.Threw? <==> s == []
    ensures |s| == 1 ==> r == Returned(s[0])
  {
    if s == [] then Threw(InvalidOperationException("Sequence contains no elements"))
    else Returned(FoldLeft(s[0], s[1..], f))
  }
}
