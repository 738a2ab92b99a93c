/** `ValueObject`: equality by runtime type and equality components, and a hash
    that XORs the components' hashes. */
module ValueObjects {
  import opened Runtime
  import Linq

  /** A value object as its equality sees it: the concrete record type and the
      components `GetEqualityComponents` yields, any of which may be null. */
  datatype ValueObject<C> = ValueObject(runtimeType: string, components: seq<Nullable<C>>)

  /** `SequenceEqual`: equal element by element, and neither runs out before the other. */
  function SequenceEqual<T(==)>(a: seq<T>, b: seq<T>): bool {
    if a == [] || b == [] then a == [] && b == []
    else a[0] == b[0] && SequenceEqual(a[1..], b[1..])
  }

  lemma {:induction false} SequenceEqualIsEquality<T>(a: seq<T>, b: seq<T>)
    ensures SequenceEqual(a, b) <==> a == b
  {
    if a != [] && b != [] {
      SequenceEqualIsEquality(a[1..], b[1..]);
      if a[0] == b[0] && a[1..] == b[1..] {
        assert a == [a[0]] + a[1..] && b == [b[0]] + b[1..];
      }
    }
  }

  /** `Equals(ValueObject other)`: false for null, otherwise same runtime type and
      the same components in the same order. */
  function Equals<C(==)>(self: ValueObject<C>, other: Nullable<ValueObject<C>>): (r: bool)
    ensures other.Null? ==> !r
    ensures r <==> other == Ref(self)
  {
    if other.Null? then false
    else
      SequenceEqualIsEquality(self.components, other.value.components);
      self.runtimeType == other.value.runtimeType && SequenceEqual(self.components, other.value.components)
  }

  /** Equality of value objects is reflexive, symmetric and transitive. */
  lemma EqualsIsEquivalence<C>(x: ValueObject<C>, y: ValueObject<C>, z: ValueObject<C>)
    ensures Equals(x, Ref(x))
    ensures Equals(x, Ref(y)) ==> Equals(y, Ref(x))
    ensures Equals(x, Ref(y)) && Equals(y, Ref(z)) ==> Equals(x, Ref(z))
  {
  }

  function Xor(x: bv32, y: bv32): bv32 {
    x ^ y
  }

  /** A component's hash: its own `GetHashCode()`, or 0 for null. */
  function ComponentHash<C>(component: Nullable<C>, hash: C -> bv32): bv32 {
    if component.Ref? then hash(component.value) else 0
  }

  /** The XOR of all the hashes, 0 for none. */
  function XorAll(hs: seq<bv32>): bv32 {
    if hs == [] then 0 else hs[0] ^ XorAll(hs[1..])
  }

  /** `GetHashCode()`: the component hashes folded with XOR by a seedless
      `Aggregate`, which throws when there are no components. `hash` stands for
      the components' own `GetHashCode()`, a 32-bit integer. */
  function GetHashCode<C>(self: ValueObject<C>, hash: C -> bv32): (r: Attempt<bv32>)
    ensures r.Threw? <==> self.components == []
    ensures r.Returned? ==> r.value == XorAll(Linq.Select(self.components, c => ComponentHash(c, hash)))
  {
    var hashes := Linq.Select(self.components, c => ComponentHash(c, hash));
    AggregateXorIsXorAll(hashes);
    Linq.Aggregate(hashes, Xor)
  }

  lemma {:induction false} FoldXorIsXorAll(acc: bv32, hs: seq<bv32>)
    ensures Linq.FoldLeft(acc, hs, Xor) == acc ^ XorAll(hs)
    decreases hs
  {
    if hs != [] {
      FoldXorIsXorAll(acc ^ hs[0], hs[1..]);
    }
  }

  /** A seedless XOR aggregate of a non-empty sequence is the XOR of all its elements. */
  lemma {:induction false} AggregateXorIsXorAll(hs: seq<bv32>)
    ensures hs != [] ==> Linq.Aggregate(hs, Xor) == Returned(XorAll(hs))
  {
    if hs != [] {
      FoldXorIsXorAll(hs[0], hs[1..]);
      assert Linq.Aggregate(hs, Xor) == Returned(Linq.FoldLeft(hs[0], hs[1..], Xor));
    }
  }

  /** Equal value objects have equal hashes. */
  lemma EqualObjectsHashAlike<C>(x: ValueObject<C>, y: ValueObject<C>, hash: C -> bv32)
    requires Equals(x, Ref(y))
    ensures GetHashCode(x, hash) == GetHashCode(y, hash)
  {
  }

  lemma XorSingle(h: bv32)
    ensures XorAll([h]) == h ^ 0
  {
    assert [h][1..] == [];
  }

  lemma XorSelf(h: bv32, g: bv32)
    requires g == h ^ 0
    ensures h ^ g == 0
  {
  }

  /** A hash XORed with itself cancels out. */
  lemma PairCancels(h: bv32)
    ensures XorAll([h, h]) == 0
  {
    XorSingle(h);
    assert [h, h][1..] == [h];
    XorSelf(h, XorAll([h]));
  }

  /** The converse does not hold: repeating a component cancels it out, so two
      different value objects can share a hash. */
  lemma {:induction false} RepeatedComponentsCollide<C>(t: string, c: C, d: C, hash: C -> bv32)
    requires c != d
    ensures !Equals(ValueObject(t, [Ref(c), Ref(c)]), Ref(ValueObject(t, [Ref(d), Ref(d)])))
    ensures GetHashCode(ValueObject(t, [Ref(c), Ref(c)]), hash) == Returned(0)
    ensures GetHashCode(ValueObject(t, [Ref(d), Ref(d)]), hash) == Returned(0)
  {
    var x := ValueObject(t, [Ref(c), Ref(c)]);
    var y := ValueObject(t, [Ref(d), Ref(d)]);
    assert x.components[0] != y.components[0];
    PairCancels(hash(c));
    PairCancels(hash(d));
    assert Linq.Select(x.components, c' => ComponentHash(c', hash)) == [hash(c), hash(c)];
    assert Linq.Select(y.components, c' => ComponentHash(c', hash)) == [hash(d), hash(d)];
  }
}
