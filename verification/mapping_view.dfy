/**
 * The read path of a symbol-keyed view of a map (`MappingView`,
 * `SymbolMapping`): every query looks up the raw value under the symbol's key
 * and resolves it through the symbol's adaptation. None of them changes the
 * map: they are functions of it.
 */
module Views {
  import opened Wrappers
  import opened Symbols
  import JavaMaps

  /**
   * The state of one slot as seen through a symbol: no entry, an entry whose
   * raw value does not adapt, or an entry that adapts to `typed`.
   */
  datatype SlotState<V> = Absent | Invalid(raw: V) | Valid(raw: V, typed: V)

  function Slot<K, V>(mappings: map<K, V>, s: Symbol<K, V>): SlotState<V> {
    if s.key !in mappings then Absent
    else match s.adapt(mappings[s.key])
      case None => Invalid(mappings[s.key])
      case Some(a) => Valid(mappings[s.key], a)
  }

  /**
   * The full outcome of resolving a slot: the raw `argument` (null when
   * missing), the adapted `value` (null when missing or unadaptable) and the
   * symbol's `fallback`.
   */
  datatype AdaptationResult<V> = AdaptationResult(argument: Option<V>, value: Option<V>, fallback: Option<V>) {
    /** The result reports a present value when the adaptation produced one. */
    predicate IsPresent() {
      value.Some?
    }
  }

  /** `get`: the adapted value; null when the key is missing or its value does not adapt. */
  function Get<K, V>(mappings: map<K, V>, s: Symbol<K, V>): (r: Option<V>)
    ensures r.Some? <==> Slot(mappings, s).Valid?
    ensures r.Some? ==> r.value == Slot(mappings, s).typed
  {
    Derive(s, JavaMaps.Lookup(mappings, s.key))
  }

  /** `use`: the adapted value when there is one, otherwise the symbol's fallback (which may be none). */
  function Use<K, V>(mappings: map<K, V>, s: Symbol<K, V>): (r: Option<V>)
    ensures Slot(mappings, s).Valid? ==> r == Some(Slot(mappings, s).typed)
    ensures !Slot(mappings, s).Valid? ==> r == s.fallback
  {
    match Get(mappings, s)
    case Some(v) => Some(v)
    case None => s.fallback
  }

  /** `find`: `get` as an optional value, empty exactly when `get` is null. */
  function Find<K, V>(mappings: map<K, V>, s: Symbol<K, V>): (r: Option<V>)
    ensures r.None? <==> Get(mappings, s).None?
    ensures r.Some? ==> r == Get(mappings, s)
  {
    Get(mappings, s)
  }

  /** `contains`: whether `get` is non-null, so an unadaptable entry counts as missing. */
  function Contains<K, V>(mappings: map<K, V>, s: Symbol<K, V>): (r: bool)
    ensures r <==> s.key in mappings && s.adapt(mappings[s.key]).Some?
  {
    Get(mappings, s) != None
  }

  /**
   * `yield`: the raw stored value as the argument, the adapted value and the
   * fallback, so that a caller can tell a missing entry from an unadaptable one.
   */
  function Yield<K, V>(mappings: map<K, V>, s: Symbol<K, V>): (r: AdaptationResult<V>)
    ensures r.argument.Some? <==> s.key in mappings
    ensures r.argument.Some? ==> r.argument.value == mappings[s.key]
    ensures r.IsPresent() <==> Contains(mappings, s)
    ensures r.value == Get(mappings, s) && r.fallback == s.fallback
  {
    var raw := JavaMaps.Lookup(mappings, s.key);
    AdaptationResult(raw, Derive(s, raw), s.fallback)
  }

  /**
   * What `yield` reports determines `get`, `use` and `find`: the three
   * readers are projections of the full outcome.
   */
  lemma ReadersAgreeWithYield<K, V>(mappings: map<K, V>, s: Symbol<K, V>)
    ensures Get(mappings, s) == Yield(mappings, s).value
    ensures Find(mappings, s) == Yield(mappings, s).value
    ensures Use(mappings, s) == (if Yield(mappings, s).IsPresent() then Yield(mappings, s).value else Yield(mappings, s).fallback)
    ensures Contains(mappings, s) <==> Yield(mappings, s).IsPresent()
  {
  }

  /**
   * Keys other than the symbol's are invisible to every reader: two maps that
   * agree on the symbol's key answer every query for it alike.
   */
  lemma ReadersDependOnlyOnKey<K, V>(m1: map<K, V>, m2: map<K, V>, s: Symbol<K, V>)
    requires JavaMaps.Lookup(m1, s.key) == JavaMaps.Lookup(m2, s.key)
    ensures Get(m1, s) == Get(m2, s) && Use(m1, s) == Use(m2, s)
    ensures Find(m1, s) == Find(m2, s) && Contains(m1, s) == Contains(m2, s)
    ensures Yield(m1, s) == Yield(m2, s)
  {
  }
}
