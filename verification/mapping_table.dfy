/**
 * A mapping table (`MappingTable` with its skeleton `AbstractMappingTable`
 * and the adapter `MappingTableAdapter`): a read-write container over a
 * backing map that it mutates in place. Each mutator applies one step of the
 * protocol to `mappings`; a rejected step leaves `mappings` as it was, and
 * no step changes any entry but the symbol's own.
 */
module Tables {
  import opened Wrappers
  import opened Symbols
  import JavaMaps
  import Protocol

  class MappingTable<K(==), V(==,!new)> {
    /** The backing map that `mappings()` exposes. */
    var mappings: map<K, V>

    /** Adapts the given backing map. */
    constructor (storage: map<K, V>)
      ensures mappings == storage
    {
      mappings := storage;
    }

    /** `clear`: removes all entries. */
    method Clear()
      modifies this
      ensures mappings == map[]
    {
      mappings := map[];
    }

    /** `putAll`: copies every source entry raw, overwriting; nothing is adapted. */
    method PutAll(source: map<K, V>)
      modifies this
      ensures mappings.Keys == old(mappings).Keys + source.Keys
      ensures forall k | k in source :: mappings[k] == source[k]
      ensures forall k | k in old(mappings) && k !in source :: mappings[k] == old(mappings)[k]
    {
      mappings := JavaMaps.PutAll(mappings, source);
    }

    /**
     * `addAll`: runs the backing map's `putIfAbsent` for each source entry,
     * so a source entry is copied raw only where the key is absent and an
     * existing entry, adaptable or not, is retained.
     */
    method AddAll(source: map<K, V>)
      modifies this
      ensures mappings.Keys == old(mappings).Keys + source.Keys
      ensures forall k | k in old(mappings) :: mappings[k] == old(mappings)[k]
      ensures forall k | k in source && k !in old(mappings) :: mappings[k] == source[k]
    {
      var pending := source.Keys;
      while pending != {}
        invariant pending <= source.Keys
        invariant mappings.Keys == old(mappings).Keys + (source.Keys - pending)
        invariant forall k | k in old(mappings) :: mappings[k] == old(mappings)[k]
        invariant forall k | k in source.Keys - pending && k !in old(mappings) :: mappings[k] == source[k]
        decreases pending
      {
        var k :| k in pending;
        mappings := JavaMaps.PutIfAbsent(mappings, k, source[k]).store;
        pending := pending - {k};
      }
    }

    /** `set`: `put` without the previous value. */
    method Set(s: Symbol<K, V>, value: V) returns (r: Result<()>)
      modifies this
      ensures mappings == Protocol.After(old(mappings), Protocol.Set(old(mappings), s, value))
      ensures r == Protocol.Returned(Protocol.Set(old(mappings), s, value))
      ensures r.Rejected? ==> mappings == old(mappings)
      ensures mappings - {s.key} == old(mappings) - {s.key}
    {
      var step := Protocol.Set(mappings, s, value);
      mappings, r := Protocol.After(mappings, step), Protocol.Returned(step);
    }

    /** `add`: `putIfAbsent` without its result. */
    method Add(s: Symbol<K, V>, value: V) returns (r: Result<()>)
      modifies this
      ensures mappings == Protocol.After(old(mappings), Protocol.PutIfAbsent(old(mappings), s, value))
      ensures r.Rejected? <==> s.adapt(value).None?
      ensures r.Rejected? ==> mappings == old(mappings)
      ensures mappings - {s.key} == old(mappings) - {s.key}
    {
      var step := Protocol.PutIfAbsent(mappings, s, value);
      mappings := Protocol.After(mappings, step);
      r := if step.Ok? then Ok(()) else Rejected;
    }

    /** `discard`: `remove` without the removed value. */
    method Discard(s: Symbol<K, V>)
      modifies this
      ensures mappings == Protocol.Discard(old(mappings), s).store
      ensures mappings == old(mappings) - {s.key}
    {
      mappings := Protocol.Discard(mappings, s).store;
    }

    /** `remove(symbol)`: removes the raw entry and returns its adaptation, or null. */
    method Remove(s: Symbol<K, V>) returns (r: Option<V>)
      modifies this
      ensures mappings == old(mappings) - {s.key}
      ensures r == Protocol.Remove(old(mappings), s).returned
    {
      var u := Protocol.Remove(mappings, s);
      mappings, r := u.store, u.returned;
    }

    /** `remove(symbol, value)`: removes the entry when its raw value equals the expected one. */
    method RemoveValue(s: Symbol<K, V>, expected: Option<V>) returns (r: bool)
      modifies this
      ensures mappings == Protocol.RemoveValue(old(mappings), s, expected).store
      ensures r == Protocol.RemoveValue(old(mappings), s, expected).returned
      ensures mappings - {s.key} == old(mappings) - {s.key}
    {
      var u := Protocol.RemoveValue(mappings, s, expected);
      mappings, r := u.store, u.returned;
    }

    /** `put`: stores the adapted value and returns the previous adapted value, or null. */
    method Put(s: Symbol<K, V>, value: V) returns (r: Result<Option<V>>)
      modifies this
      ensures mappings == Protocol.After(old(mappings), Protocol.Put(old(mappings), s, value))
      ensures r == Protocol.Returned(Protocol.Put(old(mappings), s, value))
      ensures r.Rejected? ==> mappings == old(mappings)
      ensures mappings - {s.key} == old(mappings) - {s.key}
    {
      var step := Protocol.Put(mappings, s, value);
      mappings, r := Protocol.After(mappings, step), Protocol.Returned(step);
    }

    /** `putIfAbsent`, as written. */
    method PutIfAbsent(s: Symbol<K, V>, value: V) returns (r: Result<Option<V>>)
      modifies this
      ensures mappings == Protocol.After(old(mappings), Protocol.PutIfAbsent(old(mappings), s, value))
      ensures r == Protocol.Returned(Protocol.PutIfAbsent(old(mappings), s, value))
      ensures r.Rejected? ==> mappings == old(mappings)
      ensures mappings - {s.key} == old(mappings) - {s.key}
    {
      var step := Protocol.PutIfAbsent(mappings, s, value);
      mappings, r := Protocol.After(mappings, step), Protocol.Returned(step);
    }

    /** `replace(symbol, old, new)`: raw compare-and-set storing the adapted new value. */
    method ReplaceValue(s: Symbol<K, V>, expected: Option<V>, value: V) returns (r: Result<bool>)
      modifies this
      ensures mappings == Protocol.After(old(mappings), Protocol.ReplaceValue(old(mappings), s, expected, value))
      ensures r == Protocol.Returned(Protocol.ReplaceValue(old(mappings), s, expected, value))
      ensures r.Rejected? || r == Ok(false) ==> mappings == old(mappings)
      ensures mappings - {s.key} == old(mappings) - {s.key}
    {
      var step := Protocol.ReplaceValue(mappings, s, expected, value);
      mappings, r := Protocol.After(mappings, step), Protocol.Returned(step);
    }

    /** `replace(symbol, value)`: stores the adapted value only on a present key. */
    method Replace(s: Symbol<K, V>, value: V) returns (r: Result<Option<V>>)
      modifies this
      ensures mappings == Protocol.After(old(mappings), Protocol.Replace(old(mappings), s, value))
      ensures r == Protocol.Returned(Protocol.Replace(old(mappings), s, value))
      ensures r.Rejected? || s.key !in old(mappings) ==> mappings == old(mappings)
      ensures mappings - {s.key} == old(mappings) - {s.key}
    {
      var step := Protocol.Replace(mappings, s, value);
      mappings, r := Protocol.After(mappings, step), Protocol.Returned(step);
    }

    /** `merge`, as written. */
    method Merge(s: Symbol<K, V>, value: V, f: (Option<V>, Option<V>) -> Result<Option<V>>) returns (r: Result<Option<V>>)
      modifies this
      ensures mappings == Protocol.After(old(mappings), Protocol.Merge(old(mappings), s, value, f))
      ensures r == Protocol.Returned(Protocol.Merge(old(mappings), s, value, f))
      ensures r.Rejected? ==> mappings == old(mappings)
      ensures mappings - {s.key} == old(mappings) - {s.key}
    {
      var step := Protocol.Merge(mappings, s, value, f);
      mappings, r := Protocol.After(mappings, step), Protocol.Returned(step);
    }

    /** `compute`: the function sees what `get` gives; a null result removes the entry. */
    method Compute(s: Symbol<K, V>, f: (K, Option<V>) -> Result<Option<V>>) returns (r: Result<Option<V>>)
      modifies this
      ensures mappings == Protocol.After(old(mappings), Protocol.Compute(old(mappings), s, f))
      ensures r == Protocol.Returned(Protocol.Compute(old(mappings), s, f))
      ensures r.Rejected? ==> mappings == old(mappings)
      ensures mappings - {s.key} == old(mappings) - {s.key}
    {
      var step := Protocol.Compute(mappings, s, f);
      mappings, r := Protocol.After(mappings, step), Protocol.Returned(step);
    }

    /**
     * `computeIfAbsent`: a valid slot keeps its adapted value (the raw entry is
     * rewritten to it); otherwise the adapted computed value is stored.
     */
    method ComputeIfAbsent(s: Symbol<K, V>, g: K -> Result<Option<V>>) returns (r: Result<Option<V>>)
      modifies this
      ensures mappings == Protocol.After(old(mappings), Protocol.ComputeIfAbsent(old(mappings), s, g))
      ensures r == Protocol.Returned(Protocol.ComputeIfAbsent(old(mappings), s, g))
      ensures r.Rejected? ==> mappings == old(mappings)
      ensures mappings - {s.key} == old(mappings) - {s.key}
    {
      var step := Protocol.ComputeIfAbsent(mappings, s, g);
      mappings, r := Protocol.After(mappings, step), Protocol.Returned(step);
    }

    /** `computeIfPresent`: remaps a valid value, deletes an absent or unadaptable one. */
    method ComputeIfPresent(s: Symbol<K, V>, f: (K, V) -> Result<Option<V>>) returns (r: Result<Option<V>>)
      modifies this
      ensures mappings == Protocol.After(old(mappings), Protocol.ComputeIfPresent(old(mappings), s, f))
      ensures r == Protocol.Returned(Protocol.ComputeIfPresent(old(mappings), s, f))
      ensures r.Rejected? ==> mappings == old(mappings)
      ensures mappings - {s.key} == old(mappings) - {s.key}
    {
      var step := Protocol.ComputeIfPresent(mappings, s, f);
      mappings, r := Protocol.After(mappings, step), Protocol.Returned(step);
    }

    /** `supplyIfAbsent`, as written. */
    method SupplyIfAbsent(s: Symbol<K, V>, supply: () -> Result<Option<V>>) returns (r: Result<Option<V>>)
      modifies this
      ensures mappings == Protocol.After(old(mappings), Protocol.SupplyIfAbsent(old(mappings), s, supply))
      ensures r == Protocol.Returned(Protocol.SupplyIfAbsent(old(mappings), s, supply))
      ensures r.Rejected? ==> mappings == old(mappings)
      ensures mappings - {s.key} == old(mappings) - {s.key}
    {
      var step := Protocol.SupplyIfAbsent(mappings, s, supply);
      mappings, r := Protocol.After(mappings, step), Protocol.Returned(step);
    }

    /** `supplyIfPresent`, as written. */
    method SupplyIfPresent(s: Symbol<K, V>, supply: () -> Result<Option<V>>) returns (r: Result<Option<V>>)
      modifies this
      ensures mappings == Protocol.After(old(mappings), Protocol.SupplyIfPresent(old(mappings), s, supply))
      ensures r == Protocol.Returned(Protocol.SupplyIfPresent(old(mappings), s, supply))
      ensures r.Rejected? ==> mappings == old(mappings)
      ensures mappings - {s.key} == old(mappings) - {s.key}
    {
      var step := Protocol.SupplyIfPresent(mappings, s, supply);
      mappings, r := Protocol.After(mappings, step), Protocol.Returned(step);
    }

    /**
     * `equals`: the same table, or another table whose backing map is equal,
     * whatever its identity.
     */
    function Equals(other: MappingTable?<K, V>): (r: bool)
      reads this, other
      ensures r <==> other != null && mappings == other.mappings
    {
      other == this || (other != null && mappings == other.mappings)
    }

    /** `hashCode`: the backing map's hash, given as a function of map content. */
    function HashCode(mapHash: map<K, V> -> int): (r: int)
      reads this
      ensures r == mapHash(mappings)
    {
      mapHash(mappings)
    }
  }

  /** Equal tables have equal hashes; equality is reflexive and symmetric. */
  lemma EqualTablesHaveEqualHashes<K, V(!new)>(a: MappingTable<K, V>, b: MappingTable<K, V>, mapHash: map<K, V> -> int)
    requires a.Equals(b)
    ensures a.HashCode(mapHash) == b.HashCode(mapHash)
    ensures b.Equals(a) && a.Equals(a)
  {
  }

  /** A table holding an entry is unequal to an empty table, in either direction. */
  lemma NonEmptyDiffersFromEmpty<K, V(!new)>(a: MappingTable<K, V>, b: MappingTable<K, V>, k: K)
    requires k in a.mappings && b.mappings == map[]
    ensures !a.Equals(b) && !b.Equals(a)
  {
  }
}
