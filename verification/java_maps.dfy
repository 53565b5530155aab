/**
 * The `java.util.Map` primitives the mapping protocol calls, as pure functions
 * over a null-free map following the Java SE 8 contracts of the interface's
 * methods. A value that "would be null" is `None`; storing null is never
 * needed because every caller in the model stores a present value or removes
 * the entry. A callback that throws makes the whole primitive throw and leave
 * the map as it was.
 */
module JavaMaps {
  import opened Wrappers

  /** The map after a primitive, together with what the primitive returned. */
  datatype Update<K, V, T> = Update(store: map<K, V>, returned: T)

  /** `get(key)`: the raw value, or null when the key is absent. */
  function Lookup<K, V>(m: map<K, V>, k: K): (r: Option<V>)
    ensures r.Some? <==> k in m
    ensures r.Some? ==> r.value == m[k]
  {
    if k in m then Some(m[k]) else None
  }

  /** `put(key, value)`: stores the value and returns the previous one. */
  function Put<K, V>(m: map<K, V>, k: K, v: V): Update<K, V, Option<V>> {
    Update(m[k := v], Lookup(m, k))
  }

  /** `remove(key)`: removes the entry and returns the previous value. */
  function Remove<K, V>(m: map<K, V>, k: K): Update<K, V, Option<V>> {
    Update(m - {k}, Lookup(m, k))
  }

  /** `remove(key, value)`: removes the entry only if it is present with an equal value. */
  function RemoveIfEquals<K, V(==)>(m: map<K, V>, k: K, expected: Option<V>): Update<K, V, bool> {
    if k in m && Some(m[k]) == expected then Update(m - {k}, true) else Update(m, false)
  }

  /** `replace(key, value)`: stores the value only if the key is present; returns the previous one. */
  function Replace<K, V>(m: map<K, V>, k: K, v: V): Update<K, V, Option<V>> {
    if k in m then Update(m[k := v], Some(m[k])) else Update(m, None)
  }

  /** `replace(key, oldValue, newValue)`: compare-and-set on an equal present value. */
  function ReplaceIfEquals<K, V(==)>(m: map<K, V>, k: K, expected: Option<V>, v: V): Update<K, V, bool> {
    if k in m && Some(m[k]) == expected then Update(m[k := v], true) else Update(m, false)
  }

  /** `putIfAbsent(key, value)`: stores the value only if the key is absent; returns the current one. */
  function PutIfAbsent<K, V>(m: map<K, V>, k: K, v: V): Update<K, V, Option<V>> {
    if k in m then Update(m, Some(m[k])) else Update(m[k := v], None)
  }

  /**
   * `merge(key, value, f)`: an absent key gets `value`; a present one gets
   * `f(old, value)`, or is removed when that is null. Returns the new value.
   */
  function Merge<K, V>(m: map<K, V>, k: K, v: V, f: (V, V) -> Result<Option<V>>): Result<Update<K, V, Option<V>>> {
    if k !in m then Ok(Update(m[k := v], Some(v)))
    else
      match f(m[k], v)
      case Rejected => Rejected
      case Ok(None) => Ok(Update(m - {k}, None))
      case Ok(Some(w)) => Ok(Update(m[k := w], Some(w)))
  }

  /**
   * `compute(key, f)`: `f(key, old-or-null)` becomes the new value, or the
   * entry is removed when it is null. Returns the new value.
   */
  function Compute<K, V>(m: map<K, V>, k: K, f: (K, Option<V>) -> Result<Option<V>>): Result<Update<K, V, Option<V>>> {
    match f(k, Lookup(m, k))
    case Rejected => Rejected
    case Ok(None) => Ok(Update(m - {k}, None))
    case Ok(Some(w)) => Ok(Update(m[k := w], Some(w)))
  }

  /**
   * `computeIfAbsent(key, f)`: only an absent key is computed, and only a
   * non-null result is stored. Returns the current (existing or computed) value.
   */
  function ComputeIfAbsent<K, V>(m: map<K, V>, k: K, f: K -> Option<V>): Update<K, V, Option<V>> {
    if k in m then Update(m, Some(m[k]))
    else
      match f(k)
      case None => Update(m, None)
      case Some(w) => Update(m[k := w], Some(w))
  }

  /** `putAll(source)`: every source entry overwrites. */
  function PutAll<K, V>(m: map<K, V>, source: map<K, V>): map<K, V> {
    m + source
  }
}
