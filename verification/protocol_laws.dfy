/**
 * Laws that relate several protocol operations, or one operation on several
 * inputs: round trips through `get`, operations that agree with each other,
 * and the inputs an operation provably does not consult.
 */
module Laws {
  import opened Wrappers
  import opened Symbols
  import JavaMaps
  import Views
  import Protocol

  /** A second `put` returns what the first one stored, adapted. */
  lemma PutThenPutReturnsFirst<K, V(!new)>(m: map<K, V>, s: Symbol<K, V>, first: V, second: V)
    requires Stable(s) && s.adapt(first).Some? && s.adapt(second).Some?
    ensures var m1 := Protocol.After(m, Protocol.Put(m, s, first));
            Protocol.Returned(Protocol.Put(m1, s, second)) == Ok(s.adapt(first))
  {
  }

  /** `remove` after `put` returns the adapted value and restores the map without the key. */
  lemma PutThenRemove<K, V(!new)>(m: map<K, V>, s: Symbol<K, V>, value: V)
    requires Stable(s) && s.adapt(value).Some?
    ensures var m1 := Protocol.After(m, Protocol.Put(m, s, value));
            Protocol.Remove(m1, s) == JavaMaps.Update(m - {s.key}, s.adapt(value))
  {
    var m1 := Protocol.After(m, Protocol.Put(m, s, value));
    assert m1 - {s.key} == m - {s.key};
  }

  /** `set` and `put` store alike and reject alike; `discard` and `remove` remove alike. */
  lemma SetAgreesWithPut<K, V(!new)>(m: map<K, V>, s: Symbol<K, V>, value: V)
    ensures Protocol.After(m, Protocol.Set(m, s, value)) == Protocol.After(m, Protocol.Put(m, s, value))
    ensures Protocol.Set(m, s, value).Rejected? <==> Protocol.Put(m, s, value).Rejected?
    ensures Protocol.Discard(m, s).store == Protocol.Remove(m, s).store
  {
  }

  /** `replace(symbol, value)` on an absent key changes nothing and returns null. */
  lemma ReplaceOnAbsentKey<K, V>(m: map<K, V>, s: Symbol<K, V>, value: V)
    requires s.key !in m && s.adapt(value).Some?
    ensures Protocol.Replace(m, s, value) == Ok(JavaMaps.Update(m, None))
  {
  }

  /**
   * `remove(symbol, value)` compares raw values only: two symbols on the same
   * key, whatever their adaptations, remove alike.
   */
  lemma RemoveValueIgnoresAdaptation<K, V>(m: map<K, V>, s1: Symbol<K, V>, s2: Symbol<K, V>, expected: Option<V>)
    requires s1.key == s2.key
    ensures Protocol.RemoveValue(m, s1, expected) == Protocol.RemoveValue(m, s2, expected)
  {
  }

  /** `replace(symbol, old, new)` consults the adaptation only for the new value. */
  lemma ReplaceValueIgnoresStoredAdaptation<K, V>(m: map<K, V>, s1: Symbol<K, V>, s2: Symbol<K, V>, expected: Option<V>, value: V)
    requires s1.key == s2.key && s1.adapt(value) == s2.adapt(value)
    ensures Protocol.ReplaceValue(m, s1, expected, value) == Protocol.ReplaceValue(m, s2, expected, value)
  {
  }

  /** `merge` on an absent key does not call the remapping function. */
  lemma MergeOnAbsentKeySkipsFunction<K, V(!new)>(m: map<K, V>, s: Symbol<K, V>, value: V, f: (Option<V>, Option<V>) -> Result<Option<V>>, g: (Option<V>, Option<V>) -> Result<Option<V>>)
    requires s.key !in m
    ensures Protocol.Merge(m, s, value, f) == Protocol.Merge(m, s, value, g)
  {
  }

  /**
   * `merge` as written never reads the stored value: any two maps that agree
   * except on the value under the symbol's (present) key merge alike.
   */
  lemma {:induction false} MergeReadsNoStoredValue<K, V(!new)>(m: map<K, V>, s: Symbol<K, V>, value: V, f: (Option<V>, Option<V>) -> Result<Option<V>>, a: V, b: V)
    ensures Protocol.Merge(m[s.key := a], s, value, f) == Protocol.Merge(m[s.key := b], s, value, f)
  {
    var ma, mb := m[s.key := a], m[s.key := b];
    assert ma - {s.key} == mb - {s.key};
    match Request(s, value)
    case Rejected =>
    case Ok(item) =>
      var w := RequestResult(s, f(Some(item), Derive(s, Some(item))));
      if w.Ok? && w.value.Some? {
        assert ma[s.key := w.value.value] == mb[s.key := w.value.value];
      }
  }

  /** `computeIfAbsent` on a valid slot neither calls the mapping function nor changes what `get` sees. */
  lemma ComputeIfAbsentOnValidSlot<K, V(!new)>(m: map<K, V>, s: Symbol<K, V>, g: K -> Result<Option<V>>, h: K -> Result<Option<V>>)
    requires Stable(s) && Views.Get(m, s).Some?
    ensures Protocol.ComputeIfAbsent(m, s, g) == Protocol.ComputeIfAbsent(m, s, h)
    ensures Views.Get(Protocol.After(m, Protocol.ComputeIfAbsent(m, s, g)), s) == Views.Get(m, s)
  {
  }

  /** `computeIfPresent` on an absent or unadaptable slot does not call the remapping function. */
  lemma ComputeIfPresentOnMissingSlot<K, V(!new)>(m: map<K, V>, s: Symbol<K, V>, f: (K, V) -> Result<Option<V>>, g: (K, V) -> Result<Option<V>>)
    requires Views.Get(m, s).None?
    ensures Protocol.ComputeIfPresent(m, s, f) == Protocol.ComputeIfPresent(m, s, g)
  {
  }

  /**
   * A second `computeIfAbsent` after a successful one changes nothing: the
   * value the first one left is valid, so the second keeps it.
   */
  lemma {:induction false} ComputeIfAbsentSettles<K, V(!new)>(m: map<K, V>, s: Symbol<K, V>, g: K -> Result<Option<V>>, h: K -> Result<Option<V>>)
    requires Stable(s) && Protocol.ComputeIfAbsent(m, s, g).Ok?
    requires Views.Get(Protocol.ComputeIfAbsent(m, s, g).value.store, s).Some?
    ensures var m1 := Protocol.ComputeIfAbsent(m, s, g).value.store;
            Protocol.ComputeIfAbsent(m1, s, h) == Ok(JavaMaps.Update(m1, Views.Get(m1, s)))
  {
    var m1 := Protocol.ComputeIfAbsent(m, s, g).value.store;
    var raw := m1[s.key];
    assert s.adapt(raw).Some?;
    assert s.adapt(s.adapt(raw).value) == s.adapt(raw);
    assert Views.Get(m1, s) == s.adapt(raw);
    assert m1[s.key := Views.Get(m1, s).value] == m1;
  }

  /** `supplyIfAbsent` and `supplyIfPresent`, as written, are the same operation. */
  lemma SupplyOperationsCoincide<K, V(!new)>(m: map<K, V>, s: Symbol<K, V>, supply: () -> Result<Option<V>>)
    ensures Protocol.SupplyIfAbsent(m, s, supply) == Protocol.SupplyIfPresent(m, s, supply)
  {
  }

  /** A second `have` changes nothing and answers the same. */
  lemma HaveIsIdempotent<K, V>(m: map<K, V>, s: Symbol<K, V>)
    ensures Protocol.Have(Protocol.Have(m, s).store, s) == Protocol.Have(m, s)
  {
  }
}
