/** Component types as the storage core sees them: a dense index per registered
    type and the per-type data the type-erased operation table carries.

    Component values are abstract: every registered type has a default value,
    which is what default construction produces; moving and swapping are moves
    and swaps of values in sequences. */
module Registry {

  /** A globally unique type identifier, before registration. */
  type TypeId = nat

  /** The dense index registration assigns to a type. */
  type ComponentIndex = nat

  type EntityId = nat

  /** The abstract value stored in one component slot. */
  type Value = int

  /** A component mask: exactly the component indices an archetype carries. */
  type Mask = set<ComponentIndex>

  /** One entity's component values, keyed by component index. */
  type Row = map<ComponentIndex, Value>

  /** What registration records per type: its byte size, its alignment and the
      value its default constructor produces. */
  datatype ComponentInfo = ComponentInfo(size: nat, align: nat, defaultValue: Value)

  /** Every type has a size of at least one byte, as `sizeof` guarantees. */
  predicate WellFormed(infos: seq<ComponentInfo>)
  {
    forall k | 0 <= k < |infos| :: infos[k].size > 0
  }

  /** Every index in `s` has an entry in the info table. */
  predicate Registered(infos: seq<ComponentInfo>, s: seq<ComponentIndex>)
  {
    forall i | 0 <= i < |s| :: s[i] < |infos|
  }

  predicate Distinct<T(==)>(s: seq<T>)
  {
    forall i, j | 0 <= i < j < |s| :: s[i] != s[j]
  }

  /** `infos'` is `infos` with entries for later registrations appended. */
  predicate Extends(infos: seq<ComponentInfo>, infos': seq<ComponentInfo>)
  {
    |infos| <= |infos'| && forall k | 0 <= k < |infos| :: infos'[k] == infos[k]
  }

  function MaskOf(s: seq<ComponentIndex>): Mask
  {
    set c | c in s
  }
}
