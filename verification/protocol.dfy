/**
 * The symbol-keyed mutation protocol, one function per operation, over any
 * backing map. Each follows the same three steps as the code: adapt the
 * candidate through the symbol (a failure rejects the call and leaves the map
 * as it was), issue one `java.util.Map` primitive on the symbol's key, and
 * turn the old or new raw value back into a typed result with `derive`.
 *
 * The contracts describe each operation per slot state (absent, present but
 * unadaptable, present and valid) in terms of the read path of `Views`; every
 * store that is returned differs from the input map at most at the symbol's key.
 */
module Protocol {
  import opened Wrappers
  import opened Symbols
  import opened JavaMaps
  import Views

  /** The map an operation leaves behind: the new store, or the old map when it was rejected. */
  function After<K, V, T>(m: map<K, V>, step: Result<Update<K, V, T>>): map<K, V> {
    match step
    case Ok(u) => u.store
    case Rejected => m
  }

  /** What an operation returns to its caller, or its rejection. */
  function Returned<K, V, T>(step: Result<Update<K, V, T>>): Result<T> {
    match step
    case Ok(u) => Ok(u.returned)
    case Rejected => Rejected
  }

  /** `set`: adapt the value, then store it unconditionally. */
  function Set<K, V(!new)>(m: map<K, V>, s: Symbol<K, V>, value: V): (r: Result<Update<K, V, ()>>)
    ensures r.Rejected? <==> s.adapt(value).None?
    ensures r.Ok? ==> r.value.store == m[s.key := s.adapt(value).value]
    ensures r.Ok? && Stable(s) ==> Views.Get(r.value.store, s) == s.adapt(value)
  {
    match Request(s, value)
    case Rejected => Rejected
    case Ok(item) => Ok(Update(JavaMaps.Put(m, s.key, item).store, ()))
  }

  /**
   * `put`: adapt the value, store it unconditionally, and return what `get`
   * gave before: null for an absent or unadaptable slot.
   */
  function Put<K, V(!new)>(m: map<K, V>, s: Symbol<K, V>, value: V): (r: Result<Update<K, V, Option<V>>>)
    ensures r.Rejected? <==> s.adapt(value).None?
    ensures r.Ok? ==> r.value.store == m[s.key := s.adapt(value).value]
    ensures r.Ok? ==> r.value.returned == Views.Get(m, s)
    ensures r.Ok? ==> (r.value.returned.None? <==> !Views.Slot(m, s).Valid?)
    ensures r.Ok? && Stable(s) ==> Views.Get(r.value.store, s) == s.adapt(value)
  {
    match Request(s, value)
    case Rejected => Rejected
    case Ok(item) =>
      var u := JavaMaps.Put(m, s.key, item);
      Ok(Update(u.store, Derive(s, u.returned)))
  }

  /**
   * `putIfAbsent` as written: a `merge` whose callback resolves its second
   * parameter, which `Map.merge` binds to the incoming adapted value. So the
   * adapted value ends up stored whatever the slot held, and it is returned.
   */
  function PutIfAbsent<K, V(!new)>(m: map<K, V>, s: Symbol<K, V>, value: V): (r: Result<Update<K, V, Option<V>>>)
    ensures r.Rejected? <==> s.adapt(value).None?
    ensures r.Ok? ==> r.value.store - {s.key} == m - {s.key}
    ensures r.Ok? ==> s.key in r.value.store && r.value.returned == Some(r.value.store[s.key])
    ensures r.Ok? && Stable(s) ==> r.value.store == m[s.key := s.adapt(value).value]
    ensures r.Ok? && Stable(s) ==> r.value.returned.None? || Derive(s, r.value.returned) == r.value.returned
  {
    match Request(s, value)
    case Rejected => Rejected
    case Ok(item) =>
      JavaMaps.Merge(m, s.key, item, (u: V, v: V) => Ok(Some(Derive(s, Some(v)).GetOr(item))))
  }

  /** `discard`: remove the raw entry, whatever it held. */
  function Discard<K, V>(m: map<K, V>, s: Symbol<K, V>): (r: Update<K, V, ()>)
    ensures r.store.Keys == m.Keys - {s.key}
    ensures forall k | k in r.store :: r.store[k] == m[k]
    ensures Views.Slot(r.store, s).Absent?
  {
    Update(JavaMaps.Remove(m, s.key).store, ())
  }

  /** `remove(symbol)`: remove the raw entry, returning what `get` gave before. */
  function Remove<K, V>(m: map<K, V>, s: Symbol<K, V>): (r: Update<K, V, Option<V>>)
    ensures r.store == m - {s.key} && Views.Slot(r.store, s).Absent?
    ensures r.returned == Views.Get(m, s)
  {
    var u := JavaMaps.Remove(m, s.key);
    Update(u.store, Derive(s, u.returned))
  }

  /**
   * `remove(symbol, value)`: remove the entry only when its RAW value equals
   * the expected one; adaptation plays no part, so an unadaptable entry can
   * be removed and an absent key never matches, not even an expected null.
   */
  function RemoveValue<K, V(==)>(m: map<K, V>, s: Symbol<K, V>, expected: Option<V>): (r: Update<K, V, bool>)
    ensures r.returned <==> !Views.Slot(m, s).Absent? && Some(Views.Slot(m, s).raw) == expected
    ensures r.store == if r.returned then m - {s.key} else m
  {
    JavaMaps.RemoveIfEquals(m, s.key, expected)
  }

  /**
   * `replace(symbol, old, new)`: the new value is adapted first (a failure
   * rejects even when nothing would match), then a compare-and-set on the
   * RAW stored value stores the adapted new value.
   */
  function ReplaceValue<K, V(==)>(m: map<K, V>, s: Symbol<K, V>, expected: Option<V>, value: V): (r: Result<Update<K, V, bool>>)
    ensures r.Rejected? <==> s.adapt(value).None?
    ensures r.Ok? ==> (r.value.returned <==> !Views.Slot(m, s).Absent? && Some(Views.Slot(m, s).raw) == expected)
    ensures r.Ok? ==> r.value.store == if r.value.returned then m[s.key := s.adapt(value).value] else m
  {
    match Request(s, value)
    case Rejected => Rejected
    case Ok(item) => Ok(JavaMaps.ReplaceIfEquals(m, s.key, expected, item))
  }

  /**
   * `replace(symbol, value)`: adapt the value and store it only when the key
   * is present in any form; return what `get` gave before.
   */
  function Replace<K, V>(m: map<K, V>, s: Symbol<K, V>, value: V): (r: Result<Update<K, V, Option<V>>>)
    ensures r.Rejected? <==> s.adapt(value).None?
    ensures r.Ok? && Views.Slot(m, s).Absent? ==> r.value.store == m
    ensures r.Ok? && !Views.Slot(m, s).Absent? ==> r.value.store == m[s.key := s.adapt(value).value]
    ensures r.Ok? ==> r.value.returned == Views.Get(m, s)
  {
    match Request(s, value)
    case Rejected => Rejected
    case Ok(item) =>
      var u := JavaMaps.Replace(m, s.key, item);
      Ok(Update(u.store, Derive(s, u.returned)))
  }

  /**
   * `merge` as written: an absent key receives the adapted value without the
   * remapping function being called. On a present key the callback reads its
   * second parameter, the incoming value, so the function receives the adapted
   * value and its derivation, never the stored one; its adapted result
   * replaces the entry, a null result removes it, an unadaptable one rejects.
   */
  function Merge<K, V(!new)>(m: map<K, V>, s: Symbol<K, V>, value: V, f: (Option<V>, Option<V>) -> Result<Option<V>>): (r: Result<Update<K, V, Option<V>>>)
    ensures s.adapt(value).None? ==> r.Rejected?
    ensures s.adapt(value).Some? && s.key !in m ==>
              r == Ok(Update(m[s.key := s.adapt(value).value], Derive(s, s.adapt(value))))
    ensures Stable(s) && s.adapt(value).Some? && s.key in m ==>
              var w := f(s.adapt(value), s.adapt(value));
              && (w.Rejected? ==> r.Rejected?)
              && (w == Ok(None) ==> r == Ok(Update(m - {s.key}, None)))
              && (w.Ok? && w.value.Some? ==> (r.Rejected? <==> s.adapt(w.value.value).None?))
              && (w.Ok? && w.value.Some? && r.Ok? ==>
                    r.value == Update(m[s.key := s.adapt(w.value.value).value], s.adapt(w.value.value)))
  {
    match Request(s, value)
    case Rejected => Rejected
    case Ok(item) =>
      assert Some(item) == s.adapt(value);
      assert Stable(s) ==> Derive(s, Some(item)) == s.adapt(value);
      var remap := (u: V, v: V) => RequestResult(s, f(Some(item), Derive(s, Some(v))));
      assert s.key in m ==> remap(m[s.key], item) == RequestResult(s, f(Some(item), Derive(s, Some(item))));
      match JavaMaps.Merge(m, s.key, item, remap)
      case Rejected => Rejected
      case Ok(u) => Ok(Update(u.store, Derive(s, u.returned)))
  }

  /**
   * `compute`: the function receives the key and what `get` gives (null for
   * an absent or unadaptable slot); a null result removes the entry and
   * returns null, an unadaptable one rejects, any other is stored adapted and
   * returned as `get` now sees it. The function may itself throw (`Rejected`).
   */
  function Compute<K, V(!new)>(m: map<K, V>, s: Symbol<K, V>, f: (K, Option<V>) -> Result<Option<V>>): (r: Result<Update<K, V, Option<V>>>)
    ensures f(s.key, Views.Get(m, s)).Rejected? ==> r.Rejected?
    ensures f(s.key, Views.Get(m, s)) == Ok(None) ==> r == Ok(Update(m - {s.key}, None))
    ensures f(s.key, Views.Get(m, s)).Ok? && f(s.key, Views.Get(m, s)).value.Some? ==>
              var w := f(s.key, Views.Get(m, s)).value.value;
              && (r.Rejected? <==> s.adapt(w).None?)
              && (r.Ok? ==> r.value.store == m[s.key := s.adapt(w).value])
    ensures r.Ok? ==> r.value.returned == Views.Get(r.value.store, s)
  {
    var remap := (k: K, v: Option<V>) =>
      RequestResult(s, f(s.key, Derive(s, v)));
    match JavaMaps.Compute(m, s.key, remap)
    case Rejected => Rejected
    case Ok(u) => Ok(Update(u.store, Derive(s, u.returned)))
  }

  /**
   * `computeIfAbsent`: `compute` with a function that hands back the adapted
   * current value of a valid slot (the mapping function is not called), so
   * the raw entry is rewritten to its adaptation and `get` is unchanged;
   * otherwise it adapts what the mapping function gives, so a null from it
   * deletes an unadaptable entry and a throw from it rejects the call.
   */
  function ComputeIfAbsent<K, V(!new)>(m: map<K, V>, s: Symbol<K, V>, g: K -> Result<Option<V>>): (r: Result<Update<K, V, Option<V>>>)
    ensures Stable(s) && Views.Get(m, s).Some? ==>
              r == Ok(Update(m[s.key := Views.Get(m, s).value], Views.Get(m, s)))
    ensures Views.Get(m, s).None? && g(s.key).Rejected? ==> r.Rejected?
    ensures Views.Get(m, s).None? && g(s.key) == Ok(None) ==> r == Ok(Update(m - {s.key}, None))
    ensures Views.Get(m, s).None? && g(s.key).Ok? && g(s.key).value.Some? ==>
              var w := g(s.key).value.value;
              && (s.adapt(w).None? ==> r.Rejected?)
              && (Stable(s) && s.adapt(w).Some? ==> r == Ok(Update(m[s.key := s.adapt(w).value], s.adapt(w))))
  {
    Compute(m, s, (t: K, v: Option<V>) => if v.None? then RequestResult(s, g(t)) else Ok(v))
  }

  /**
   * `computeIfPresent`: `compute` with a function that yields null for an
   * absent or unadaptable slot (so such an entry is deleted and the remapping
   * function is not called) and otherwise adapts the remapping result.
   */
  function ComputeIfPresent<K, V(!new)>(m: map<K, V>, s: Symbol<K, V>, f: (K, V) -> Result<Option<V>>): (r: Result<Update<K, V, Option<V>>>)
    ensures Views.Get(m, s).None? ==> r == Ok(Update(m - {s.key}, None))
    ensures Views.Get(m, s).Some? && f(s.key, Views.Get(m, s).value).Rejected? ==> r.Rejected?
    ensures Views.Get(m, s).Some? && f(s.key, Views.Get(m, s).value) == Ok(None) ==> r == Ok(Update(m - {s.key}, None))
    ensures Views.Get(m, s).Some? && f(s.key, Views.Get(m, s).value).Ok? && f(s.key, Views.Get(m, s).value).value.Some? ==>
              var w := f(s.key, Views.Get(m, s).value).value.value;
              && (s.adapt(w).None? ==> r.Rejected?)
              && (Stable(s) && s.adapt(w).Some? ==> r == Ok(Update(m[s.key := s.adapt(w).value], s.adapt(w))))
  {
    Compute(m, s, (t: K, v: Option<V>) => if v.Some? then RequestResult(s, f(t, v.value)) else Ok(None))
  }

  /**
   * `supplyIfAbsent` as written: a raw `compute` that stores the adapted
   * supplied value whatever the slot holds, or removes the entry when the
   * supplier gives null.
   */
  function SupplyIfAbsent<K, V(!new)>(m: map<K, V>, s: Symbol<K, V>, supply: () -> Result<Option<V>>): (r: Result<Update<K, V, Option<V>>>)
    ensures supply().Rejected? ==> r.Rejected?
    ensures supply() == Ok(None) ==> r == Ok(Update(m - {s.key}, None))
    ensures supply().Ok? && supply().value.Some? ==> (r.Rejected? <==> s.adapt(supply().value.value).None?)
    ensures supply().Ok? && supply().value.Some? && r.Ok? ==> r.value.store == m[s.key := s.adapt(supply().value.value).value]
    ensures r.Ok? ==> r.value.returned == Views.Get(r.value.store, s)
  {
    match JavaMaps.Compute(m, s.key, (k: K, v: Option<V>) => RequestResult(s, supply()))
    case Rejected => Rejected
    case Ok(u) => Ok(Update(u.store, Derive(s, u.returned)))
  }

  /** `supplyIfPresent` as written: the very same raw `compute` as `supplyIfAbsent`. */
  function SupplyIfPresent<K, V(!new)>(m: map<K, V>, s: Symbol<K, V>, supply: () -> Result<Option<V>>): (r: Result<Update<K, V, Option<V>>>)
    ensures Views.Slot(m, s).Absent? && supply().Ok? && supply().value.Some? && s.adapt(supply().value.value).Some? ==>
              r.Ok? && s.key in r.value.store
    ensures r == SupplyIfAbsent(m, s, supply)
  {
    match JavaMaps.Compute(m, s.key, (k: K, v: Option<V>) => RequestResult(s, supply()))
    case Rejected => Rejected
    case Ok(u) => Ok(Update(u.store, Derive(s, u.returned)))
  }

  /**
   * `have` (of the symbol context): store the symbol's fallback, raw, only
   * when the key is absent and a fallback exists; never overwrite an entry,
   * even an unadaptable one; return what `get` gives afterwards.
   */
  function Have<K, V>(m: map<K, V>, s: Symbol<K, V>): (r: Update<K, V, Option<V>>)
    ensures s.key in m ==> r.store == m
    ensures s.key !in m && s.fallback.None? ==> r.store == m
    ensures s.key !in m && s.fallback.Some? ==> r.store == m[s.key := s.fallback.value]
    ensures r.returned == Views.Get(r.store, s)
  {
    var u := JavaMaps.ComputeIfAbsent(m, s.key, (k: K) => s.fallback);
    Update(u.store, Derive(s, u.returned))
  }
}
