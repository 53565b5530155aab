/**
 * An unmodifiable symbol-based view of a map (`SymbolMapping`): its readers
 * are those of `Views` applied to `entries`, its equality and hash are those
 * of the map it views.
 */
module SymbolMappings {
  import opened Wrappers
  import opened Symbols
  import Views

  datatype SymbolMapping<K, V(==)> = SymbolMapping(entries: map<K, V>) {

    /** `size`: the number of entries of the viewed map. */
    function Size(): (r: nat)
      ensures r == |entries.Keys|
      ensures r == 0 <==> entries == map[]
    {
      |entries|
    }

    /** `isEmpty`: holds exactly when `size` is zero. */
    function IsEmpty(): (r: bool)
      ensures r <==> Size() == 0
      ensures r <==> entries.Keys == {}
    {
      entries == map[]
    }

    /** `equals`: two mappings are equal when their viewed maps are. */
    function Equals(other: SymbolMapping<K, V>): (r: bool)
      ensures r <==> entries.Keys == other.entries.Keys && forall k | k in entries :: entries[k] == other.entries[k]
    {
      entries == other.entries
    }

    /** `hashCode`: the viewed map's hash, given as a function of map content. */
    function HashCode(mapHash: map<K, V> -> int): (r: int)
      ensures r == mapHash(entries)
    {
      mapHash(entries)
    }
  }

  /** `SymbolMapping.empty()`: the mapping of the empty map. */
  function Empty<K, V(==)>(): (r: SymbolMapping<K, V>)
    ensures r.IsEmpty() && r.Size() == 0
  {
    SymbolMapping(map[])
  }

  /** The empty mapping has no value for any symbol: `get` is null, `find` empty, `use` the fallback. */
  lemma EmptyHasNoValue<K, V>(s: Symbol<K, V>)
    ensures Views.Get(Empty<K, V>().entries, s) == None
    ensures Views.Find(Empty<K, V>().entries, s) == None
    ensures !Views.Contains(Empty<K, V>().entries, s)
    ensures Views.Use(Empty<K, V>().entries, s) == s.fallback
    ensures Views.Yield(Empty<K, V>().entries, s) == Views.AdaptationResult(None, None, s.fallback)
  {
  }

  /**
   * The readers depend on the viewed map only: equal mappings answer every
   * query alike and have equal hashes.
   */
  lemma EqualMappingsAnswerAlike<K, V>(a: SymbolMapping<K, V>, b: SymbolMapping<K, V>, s: Symbol<K, V>, mapHash: map<K, V> -> int)
    requires a.Equals(b)
    ensures a.Size() == b.Size() && a.IsEmpty() == b.IsEmpty()
    ensures Views.Get(a.entries, s) == Views.Get(b.entries, s)
    ensures Views.Use(a.entries, s) == Views.Use(b.entries, s)
    ensures Views.Find(a.entries, s) == Views.Find(b.entries, s)
    ensures Views.Yield(a.entries, s) == Views.Yield(b.entries, s)
    ensures a.HashCode(mapHash) == b.HashCode(mapHash)
  {
    assert a.entries == b.entries;
  }
}
