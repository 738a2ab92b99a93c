/** `EntityId<TId>`: a value object with a single equality component, its value;
    `GuidEntityId` is the one keyed by a GUID. Being a record, `EntityId<TId>`
    also gets compiler-generated `Equals` and `GetHashCode` overrides that
    extend the `ValueObject` ones with its own `Value` field. */
module EntityIds {
  import opened Runtime
  import opened ValueObjects

  /** An id record: the concrete record type and the value it wraps (never null). */
  datatype EntityId<TId> = EntityId(runtimeType: string, value: TId)

  /** A 128-bit GUID. */
  type Guid = bv128

  /** The multiplier a generated record `GetHashCode` uses to fold in each
      field, -1521134295 as an unsigned 32-bit value. */
  const HashMultiplier: bv32 := 0xA555_5529

  /** `GetEqualityComponents()`: yields the value, and nothing else. */
  function GetEqualityComponents<TId>(id: EntityId<TId>): (components: seq<Nullable<TId>>)
    ensures |components| == 1
    ensures forall c :: c in components ==> c == Ref(id.value)
  {
    [Ref(id.value)]
  }

  /** The id seen as the value object it is. */
  function AsValueObject<TId>(id: EntityId<TId>): ValueObject<TId> {
    ValueObject(id.runtimeType, GetEqualityComponents(id))
  }

  /** The inherited `ValueObject` members applied to an id: two ids of the same
      record type are equal iff their values are, and the base hash of an id
      is its value's hash. */
  lemma IdEqualityAndHash<TId>(a: EntityId<TId>, b: EntityId<TId>, hash: TId -> bv32)
    ensures a.runtimeType == b.runtimeType ==>
      (Equals(AsValueObject(a), Ref(AsValueObject(b))) <==> a.value == b.value)
    ensures GetHashCode(AsValueObject(a), hash) == Returned(hash(a.value))
  {
    assert [hash(a.value)][1..] == [];
    assert Linq.Select(AsValueObject(a).components, c => ComponentHash(c, hash)) == [hash(a.value)];
  }

  /** The generated `Equals(EntityId<TId>)`: the base `Equals`, then the `Value`
      field compared once more. The extra comparison changes nothing: ids are
      equal iff they have the same record type and the same value. */
  function RecordEquals<TId(==)>(self: EntityId<TId>, other: Nullable<EntityId<TId>>): (r: bool)
    ensures r <==> other.Ref? && other.value.runtimeType == self.runtimeType && other.value.value == self.value
  {
    other.Ref? && Equals(AsValueObject(self), Ref(AsValueObject(other.value))) && self.value == other.value.value
  }

  /** One step of a generated record hash: fold a field's hash into the hash so far. */
  function Combine(soFar: bv32, field: bv32): bv32 {
    soFar * HashMultiplier + field
  }

  /** What the generated hash comes to when the base hash and the field hash
      are both `v`. */
  function IdHashOf(v: bv32): bv32 {
    Combine(v, v)
  }

  /** The generated `GetHashCode()`: the base hash times the multiplier, plus
      the `Value` field's hash, wrapping at 32 bits. It is a function of the
      value's hash alone. */
  function RecordHashCode<TId>(id: EntityId<TId>, hash: TId -> bv32): (h: bv32)
    ensures h == IdHashOf(hash(id.value))
  {
    IdEqualityAndHash(id, id, hash);
    Combine(GetHashCode(AsValueObject(id), hash).value, hash(id.value))
  }

  /** Equal ids hash alike under the generated override, but an id's hash is
      not its value's hash: a value hashing to 1 gives an id hashing elsewhere. */
  lemma RecordHashOfEqualIds<TId>(a: EntityId<TId>, b: EntityId<TId>, hash: TId -> bv32)
    ensures RecordEquals(a, Ref(b)) ==> RecordHashCode(a, hash) == RecordHashCode(b, hash)
    ensures hash(a.value) == 1 ==> RecordHashCode(a, hash) != hash(a.value)
  {
    assert IdHashOf(1) == 0xA555_552A;
  }

  /** `new GuidEntityId(g)`. The record declares no field of its own (its
      `Value` is the inherited one), so its equality and hash are `EntityId`'s. */
  function GuidEntityId(g: Guid): (id: EntityId<Guid>)
    ensures id.value == g && id.runtimeType == "GuidEntityId"
  {
    EntityId("GuidEntityId", g)
  }
}
