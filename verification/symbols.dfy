/**
 * Symbols: a storage key bound to an adaptation strategy and an optional
 * fallback. The adaptation framework itself is outside this model; a symbol's
 * adaptation is an opaque function that either yields the adapted value or
 * fails.
 */
module Symbols {
  import opened Wrappers

  /**
   * A symbol: `key` is what `remap()` returns, `adapt` validates and coerces
   * a raw (non-null) value, `fallback` is the default the symbol supplies.
   */
  datatype Symbol<K, !V> = Symbol(key: K, adapt: V -> Option<V>, fallback: Option<V>)

  /**
   * `derive`: the best-effort adaptation of a raw value that may be null;
   * null and unadaptable values both give null.
   */
  function Derive<K, V>(s: Symbol<K, V>, raw: Option<V>): (r: Option<V>)
    ensures raw.None? ==> r.None?
    ensures r.Some? ==> raw.Some? && s.adapt(raw.value) == r
    ensures raw.Some? ==> r == s.adapt(raw.value)
  {
    match raw
    case None => None
    case Some(x) => s.adapt(x)
  }

  /**
   * `adapt(value).request()` for a non-null candidate: the adapted value, or
   * a rejection when the candidate does not adapt.
   */
  function Request<K, V>(s: Symbol<K, V>, value: V): (r: Result<V>)
    ensures r.Rejected? <==> s.adapt(value).None?
    ensures r.Ok? ==> Some(r.value) == s.adapt(value)
  {
    match s.adapt(value)
    case None => Rejected
    case Some(a) => Ok(a)
  }

  /**
   * `adapt(value).request()` for a candidate that may be null: adapting no
   * value succeeds with no value, so a null result of a remapping function
   * passes through and removes the slot.
   */
  function RequestOrNull<K, V>(s: Symbol<K, V>, value: Option<V>): (r: Result<Option<V>>)
    ensures value.None? ==> r == Ok(None)
    ensures value.Some? ==> (r.Rejected? <==> s.adapt(value.value).None?)
    ensures r.Ok? ==> r.value == Derive(s, value)
  {
    match value
    case None => Ok(None)
    case Some(x) => if s.adapt(x).Some? then Ok(s.adapt(x)) else Rejected
  }

  /**
   * `adapt(callback(...)).request()` for a caller-supplied callback that may
   * throw: the exception propagates, otherwise its possibly null result is
   * requested as by `RequestOrNull`.
   */
  function RequestResult<K, V>(s: Symbol<K, V>, outcome: Result<Option<V>>): (r: Result<Option<V>>)
    ensures outcome.Rejected? ==> r.Rejected?
    ensures outcome == Ok(None) ==> r == Ok(None)
    ensures outcome.Ok? && outcome.value.Some? ==> (r.Rejected? <==> s.adapt(outcome.value.value).None?)
    ensures r.Ok? ==> outcome.Ok? && r.value == Derive(s, outcome.value)
  {
    match outcome
    case Rejected => Rejected
    case Ok(candidate) => RequestOrNull(s, candidate)
  }

  /**
   * The adaptation is idempotent on its own outputs: adapting an adapted
   * value gives it back. The code relies on this when it asserts that what it
   * stored is a fixed point of `derive`.
   */
  ghost predicate Stable<K, V(!new)>(s: Symbol<K, V>) {
    forall x :: s.adapt(x).Some? ==> s.adapt(s.adapt(x).value) == s.adapt(x)
  }

  /** Under a stable adaptation, an accepted candidate is a fixed point of `derive`. */
  lemma RequestedIsFixedPoint<K, V(!new)>(s: Symbol<K, V>, value: V)
    requires Stable(s)
    requires Request(s, value).Ok?
    ensures Derive(s, Some(Request(s, value).value)) == Some(Request(s, value).value)
  {
    assert s.adapt(value).Some?;
  }
}
