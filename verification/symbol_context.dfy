/**
 * A symbol context over a storage map (`SymbolContextAdapter`): the storage
 * is updated in place by the same symbol-keyed protocol as a mapping table,
 * and it additionally offers `have`, which fills in the symbol's fallback.
 */
module Contexts {
  import opened Wrappers
  import opened Symbols
  import JavaMaps
  import Views
  import Protocol
  import SymbolMappings

  class SymbolContextAdapter<K(==), V(==,!new)> {
    /** The storage map that `storage()` supplies and `map()` exposes. */
    var storage: map<K, V>

    /** An adapter over the given storage. */
    constructor (initial: map<K, V>)
      ensures storage == initial
    {
      storage := initial;
    }

    /** `map()`: the read-only face of the context, over the same storage. */
    function Mapping(): (r: SymbolMappings.SymbolMapping<K, V>)
      reads this
      ensures forall k | k in storage :: JavaMaps.Lookup(r.entries, k) == Some(storage[k])
      ensures r.Size() == |storage.Keys|
    {
      SymbolMappings.SymbolMapping(storage)
    }

    /**
     * `have`: stores the fallback when the key is absent (and there is one),
     * then returns what `get` gives on the result.
     */
    method Have(s: Symbol<K, V>) returns (r: Option<V>)
      modifies this
      ensures storage == Protocol.Have(old(storage), s).store
      ensures r == Protocol.Have(old(storage), s).returned
      ensures r == Views.Get(storage, s)
      ensures s.key in old(storage) || s.fallback.None? ==> storage == old(storage)
    {
      var u := Protocol.Have(storage, s);
      storage, r := u.store, u.returned;
    }

    /** `clear`: removes all entries. */
    method Clear()
      modifies this
      ensures storage == map[]
    {
      storage := map[];
    }

    /** `set`: `put` without the previous value. */
    method Set(s: Symbol<K, V>, value: V) returns (r: Result<()>)
      modifies this
      ensures storage == Protocol.After(old(storage), Protocol.Set(old(storage), s, value))
      ensures r == Protocol.Returned(Protocol.Set(old(storage), s, value))
      ensures r.Rejected? ==> storage == old(storage)
      ensures storage - {s.key} == old(storage) - {s.key}
    {
      var step := Protocol.Set(storage, s, value);
      storage, r := Protocol.After(storage, step), Protocol.Returned(step);
    }

    /** `discard`: `remove` without the removed value. */
    method Discard(s: Symbol<K, V>)
      modifies this
      ensures storage == Protocol.Discard(old(storage), s).store
      ensures storage == old(storage) - {s.key}
    {
      storage := Protocol.Discard(storage, s).store;
    }

    /** `remove(symbol)`: removes the raw entry and returns its adaptation, or null. */
    method Remove(s: Symbol<K, V>) returns (r: Option<V>)
      modifies this
      ensures storage == old(storage) - {s.key}
      ensures r == Protocol.Remove(old(storage), s).returned
    {
      var u := Protocol.Remove(storage, s);
      storage, r := u.store, u.returned;
    }

    /** `remove(symbol, value)`: removes the entry when its raw value equals the expected one. */
    method RemoveValue(s: Symbol<K, V>, expected: Option<V>) returns (r: bool)
      modifies this
      ensures storage == Protocol.RemoveValue(old(storage), s, expected).store
      ensures r == Protocol.RemoveValue(old(storage), s, expected).returned
      ensures storage - {s.key} == old(storage) - {s.key}
    {
      var u := Protocol.RemoveValue(storage, s, expected);
      storage, r := u.store, u.returned;
    }

    /** `put`: stores the adapted value and returns the previous adapted value, or null. */
    method Put(s: Symbol<K, V>, value: V) returns (r: Result<Option<V>>)
      modifies this
      ensures storage == Protocol.After(old(storage), Protocol.Put(old(storage), s, value))
      ensures r == Protocol.Returned(Protocol.Put(old(storage), s, value))
      ensures r.Rejected? ==> storage == old(storage)
      ensures storage - {s.key} == old(storage) - {s.key}
    {
      var step := Protocol.Put(storage, s, value);
      storage, r := Protocol.After(storage, step), Protocol.Returned(step);
    }

    /** `putIfAbsent`, as written. */
    method PutIfAbsent(s: Symbol<K, V>, value: V) returns (r: Result<Option<V>>)
      modifies this
      ensures storage == Protocol.After(old(storage), Protocol.PutIfAbsent(old(storage), s, value))
      ensures r == Protocol.Returned(Protocol.PutIfAbsent(old(storage), s, value))
      ensures r.Rejected? ==> storage == old(storage)
      ensures storage - {s.key} == old(storage) - {s.key}
    {
      var step := Protocol.PutIfAbsent(storage, s, value);
      storage, r := Protocol.After(storage, step), Protocol.Returned(step);
    }

    /** `replace(symbol, old, new)`: raw compare-and-set storing the adapted new value. */
    method ReplaceValue(s: Symbol<K, V>, expected: Option<V>, value: V) returns (r: Result<bool>)
      modifies this
      ensures storage == Protocol.After(old(storage), Protocol.ReplaceValue(old(storage), s, expected, value))
      ensures r == Protocol.Returned(Protocol.ReplaceValue(old(storage), s, expected, value))
      ensures r.Rejected? || r == Ok(false) ==> storage == old(storage)
      ensures storage - {s.key} == old(storage) - {s.key}
    {
      var step := Protocol.ReplaceValue(storage, s, expected, value);
      storage, r := Protocol.After(storage, step), Protocol.Returned(step);
    }

    /** `replace(symbol, value)`: stores the adapted value only on a present key. */
    method Replace(s: Symbol<K, V>, value: V) returns (r: Result<Option<V>>)
      modifies this
      ensures storage == Protocol.After(old(storage), Protocol.Replace(old(storage), s, value))
      ensures r == Protocol.Returned(Protocol.Replace(old(storage), s, value))
      ensures r.Rejected? || s.key !in old(storage) ==> storage == old(storage)
      ensures storage - {s.key} == old(storage) - {s.key}
    {
      var step := Protocol.Replace(storage, s, value);
      storage, r := Protocol.After(storage, step), Protocol.Returned(step);
    }

    /** `merge`, as written. */
    method Merge(s: Symbol<K, V>, value: V, f: (Option<V>, Option<V>) -> Result<Option<V>>) returns (r: Result<Option<V>>)
      modifies this
      ensures storage == Protocol.After(old(storage), Protocol.Merge(old(storage), s, value, f))
      ensures r == Protocol.Returned(Protocol.Merge(old(storage), s, value, f))
      ensures r.Rejected? ==> storage == old(storage)
      ensures storage - {s.key} == old(storage) - {s.key}
    {
      var step := Protocol.Merge(storage, s, value, f);
      storage, r := Protocol.After(storage, step), Protocol.Returned(step);
    }

    /** `compute`: the function sees what `get` gives; a null result removes the entry. */
    method Compute(s: Symbol<K, V>, f: (K, Option<V>) -> Result<Option<V>>) returns (r: Result<Option<V>>)
      modifies this
      ensures storage == Protocol.After(old(storage), Protocol.Compute(old(storage), s, f))
      ensures r == Protocol.Returned(Protocol.Compute(old(storage), s, f))
      ensures r.Rejected? ==> storage == old(storage)
      ensures storage - {s.key} == old(storage) - {s.key}
    {
      var step := Protocol.Compute(storage, s, f);
      storage, r := Protocol.After(storage, step), Protocol.Returned(step);
    }

    /**
     * `computeIfAbsent`: a valid slot keeps its adapted value (the raw entry is
     * rewritten to it); otherwise the adapted computed value is stored.
     */
    method ComputeIfAbsent(s: Symbol<K, V>, g: K -> Result<Option<V>>) returns (r: Result<Option<V>>)
      modifies this
      ensures storage == Protocol.After(old(storage), Protocol.ComputeIfAbsent(old(storage), s, g))
      ensures r == Protocol.Returned(Protocol.ComputeIfAbsent(old(storage), s, g))
      ensures r.Rejected? ==> storage == old(storage)
      ensures storage - {s.key} == old(storage) - {s.key}
    {
      var step := Protocol.ComputeIfAbsent(storage, s, g);
      storage, r := Protocol.After(storage, step), Protocol.Returned(step);
    }

    /** `computeIfPresent`: remaps a valid value, deletes an absent or unadaptable one. */
    method ComputeIfPresent(s: Symbol<K, V>, f: (K, V) -> Result<Option<V>>) returns (r: Result<Option<V>>)
      modifies this
      ensures storage == Protocol.After(old(storage), Protocol.ComputeIfPresent(old(storage), s, f))
      ensures r == Protocol.Returned(Protocol.ComputeIfPresent(old(storage), s, f))
      ensures r.Rejected? ==> storage == old(storage)
      ensures storage - {s.key} == old(storage) - {s.key}
    {
      var step := Protocol.ComputeIfPresent(storage, s, f);
      storage, r := Protocol.After(storage, step), Protocol.Returned(step);
    }

    /** `putAll`: copies every raw entry of the source mapping, overwriting. */
    method PutAll(source: SymbolMappings.SymbolMapping<K, V>)
      modifies this
      ensures storage.Keys == old(storage).Keys + source.entries.Keys
      ensures forall k | k in source.entries :: storage[k] == source.entries[k]
      ensures forall k | k in old(storage) && k !in source.entries :: storage[k] == old(storage)[k]
    {
      storage := JavaMaps.PutAll(storage, source.entries);
    }
  }
}
