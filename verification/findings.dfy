/**
 * Corrected definitions of the four operations whose code departs from what
 * their documentation promises, each with the promised property, next to
 * lemmas that exhibit the departure of the code as written (`Protocol`).
 *
 * - `putIfAbsent` and `merge` pass a callback to `Map.merge` that reads its
 *   second parameter, which `Map.merge` binds to the incoming value rather
 *   than to the stored one.
 * - `merge` also lets `Map.merge` call that callback on an unadaptable
 *   entry, which the documentation treats as no association at all.
 * - `supplyIfAbsent` and `supplyIfPresent` share one body, a raw `compute`
 *   that overwrites whatever the slot holds.
 */
module Intended {
  import opened Wrappers
  import opened Symbols
  import JavaMaps
  import Views
  import Protocol

  /**
   * `putIfAbsent` as documented: a symbol that is associated already leaves
   * the map untouched (its raw entry included, and the supplied value is not
   * stored), an absent or unadaptable one is replaced by the adapted value;
   * the previous value as `get` saw it is returned.
   */
  function PutIfAbsent<K, V(!new)>(m: map<K, V>, s: Symbol<K, V>, value: V): (r: Result<JavaMaps.Update<K, V, Option<V>>>)
    ensures r.Rejected? <==> s.adapt(value).None?
    ensures r.Ok? ==> r.value.returned == Views.Get(m, s)
    ensures r.Ok? && Views.Slot(m, s).Valid? ==> r.value.store == m
    ensures r.Ok? && !Views.Slot(m, s).Valid? ==> r.value.store == m[s.key := s.adapt(value).value]
    ensures r.Ok? && Stable(s) ==>
              Views.Get(r.value.store, s) == if Views.Get(m, s).Some? then Views.Get(m, s) else s.adapt(value)
  {
    match Request(s, value)
    case Rejected => Rejected
    case Ok(item) =>
      match JavaMaps.Merge(m, s.key, item, (u: V, v: V) => Ok(Some(if Derive(s, Some(u)).Some? then u else item)))
      case Rejected => Rejected
      case Ok(u) => Ok(JavaMaps.Update(u.store, Views.Get(m, s)))
  }

  /**
   * `merge` as documented and as exercised by the library's tests: a symbol
   * that `get` does not answer (absent key or unadaptable value) takes the
   * adapted value directly; a valid slot passes its current value and the
   * adapted incoming value, in this order, to the remapping function, whose
   * null result removes the entry and whose other results are stored adapted.
   */
  function Merge<K, V(!new)>(m: map<K, V>, s: Symbol<K, V>, value: V, f: (Option<V>, Option<V>) -> Result<Option<V>>): (r: Result<JavaMaps.Update<K, V, Option<V>>>)
    ensures s.adapt(value).None? ==> r.Rejected?
    ensures s.adapt(value).Some? && Views.Get(m, s).None? ==>
              r == Ok(JavaMaps.Update(m[s.key := s.adapt(value).value], Derive(s, s.adapt(value))))
    ensures s.adapt(value).Some? && Views.Get(m, s).Some? ==>
              var w := f(Views.Get(m, s), s.adapt(value));
              && (w.Rejected? ==> r.Rejected?)
              && (w == Ok(None) ==> r == Ok(JavaMaps.Update(m - {s.key}, None)))
              && (w.Ok? && w.value.Some? ==> (r.Rejected? <==> s.adapt(w.value.value).None?))
              && (w.Ok? && w.value.Some? && r.Ok? ==>
                    r.value.store == m[s.key := s.adapt(w.value.value).value] && r.value.returned == Views.Get(r.value.store, s))
    ensures r.Ok? && Stable(s) && Views.Get(m, s).None? ==>
              r.value.returned == s.adapt(value) && Views.Get(r.value.store, s) == s.adapt(value)
  {
    match Request(s, value)
    case Rejected => Rejected
    case Ok(item) =>
      var remap := (u: V, v: V) =>
        var current := Derive(s, Some(u));
        if current.None? then Ok(Some(v)) else RequestResult(s, f(current, Some(v)));
      match JavaMaps.Merge(m, s.key, item, remap)
      case Rejected => Rejected
      case Ok(u) => Ok(JavaMaps.Update(u.store, Derive(s, u.returned)))
  }

  /**
   * `supplyIfAbsent` as documented: `computeIfAbsent` with the supplier, so a
   * valid slot keeps its adapted value (the raw entry is rewritten to it, and
   * `get` is unchanged) and the supplier is not consulted.
   */
  function SupplyIfAbsent<K, V(!new)>(m: map<K, V>, s: Symbol<K, V>, supply: () -> Result<Option<V>>): (r: Result<JavaMaps.Update<K, V, Option<V>>>)
    ensures Stable(s) && Views.Get(m, s).Some? ==>
              r == Ok(JavaMaps.Update(m[s.key := Views.Get(m, s).value], Views.Get(m, s)))
    ensures Stable(s) && Views.Get(m, s).None? ==> r == Protocol.SupplyIfAbsent(m, s, supply)
  {
    Protocol.ComputeIfAbsent(m, s, (k: K) => supply())
  }

  /**
   * `supplyIfPresent` as documented: `computeIfPresent` with the supplier, so
   * an absent key stays absent and the supplier is not consulted; an
   * unadaptable entry is removed, as `computeIfPresent` does.
   */
  function SupplyIfPresent<K, V(!new)>(m: map<K, V>, s: Symbol<K, V>, supply: () -> Result<Option<V>>): (r: Result<JavaMaps.Update<K, V, Option<V>>>)
    ensures Views.Slot(m, s).Absent? ==> r == Ok(JavaMaps.Update(m, None))
    ensures Views.Get(m, s).None? ==> r == Ok(JavaMaps.Update(m - {s.key}, None))
    ensures Stable(s) && Views.Get(m, s).Some? ==> r == Protocol.SupplyIfPresent(m, s, supply)
  {
    assert s.key !in m ==> m - {s.key} == m;
    Protocol.ComputeIfPresent(m, s, (k: K, v: V) => supply())
  }

  /**
   * A second `putIfAbsent` (as documented) after a successful one changes
   * nothing, whatever value it offers, and returns what the first one left.
   */
  lemma PutIfAbsentSettles<K, V(!new)>(m: map<K, V>, s: Symbol<K, V>, first: V, second: V)
    requires Stable(s)
    requires PutIfAbsent(m, s, first).Ok? && s.adapt(second).Some?
    ensures var m1 := PutIfAbsent(m, s, first).value.store;
            PutIfAbsent(m1, s, second) == Ok(JavaMaps.Update(m1, Views.Get(m1, s)))
  {
  }

  /** The symbol of the counterexamples: key 0, every value adaptable as itself, no fallback. */
  function Plain(): (s: Symbol<int, int>)
    ensures forall x :: s.adapt(x) == Some(x)
  {
    Symbol(0, (x: int) => Some(x), None)
  }

  lemma PlainIsStable()
    ensures Stable(Plain())
  {
  }

  /** The code overwrites a valid stored 1 with 2 and returns 2; as documented, 1 stays and is returned. */
  lemma PutIfAbsentOverwrites()
    ensures Protocol.PutIfAbsent(map[0 := 1], Plain(), 2) == Ok(JavaMaps.Update(map[0 := 2], Some(2)))
    ensures PutIfAbsent(map[0 := 1], Plain(), 2) == Ok(JavaMaps.Update(map[0 := 1], Some(1)))
  {
    PlainIsStable();
    assert map[0 := 1][0 := 2] == map[0 := 2];
    assert Views.Get(map[0 := 1], Plain()) == Some(1);
    assert map[0 := 1][0 := 1] == map[0 := 1];
  }

  /**
   * With a remapping function that keeps its first argument (the stored
   * value, as documented), the code stores the incoming 2 over the stored 1;
   * as documented, 1 stays.
   */
  lemma MergeIgnoresStoredValue()
    ensures Protocol.Merge(map[0 := 1], Plain(), 2, (x: Option<int>, y: Option<int>) => Ok(x)) == Ok(JavaMaps.Update(map[0 := 2], Some(2)))
    ensures Merge(map[0 := 1], Plain(), 2, (x: Option<int>, y: Option<int>) => Ok(x)) == Ok(JavaMaps.Update(map[0 := 1], Some(1)))
  {
    PlainIsStable();
    assert map[0 := 1][0 := 2] == map[0 := 2];
    assert Views.Get(map[0 := 1], Plain()) == Some(1);
    assert map[0 := 1][0 := 1] == map[0 := 1];
  }

  /** The symbol of the unadaptable-slot counterexample: key 0, only non-negative values adapt, no fallback. */
  function NonNegative(): (s: Symbol<int, int>)
    ensures forall x :: s.adapt(x) == if x >= 0 then Some(x) else None
  {
    Symbol(0, (x: int) => if x >= 0 then Some(x) else None, None)
  }

  /**
   * Merging 1 into a slot holding the unadaptable -1, with a function that
   * yields null: the code hands the function the incoming value and deletes
   * the entry; as documented, the unadaptable slot is not associated, so 1 is
   * stored without calling the function.
   */
  lemma MergeDeletesOverUnadaptableSlot()
    ensures Protocol.Merge(map[0 := -1], NonNegative(), 1, (x: Option<int>, y: Option<int>) => Ok(None)) == Ok(JavaMaps.Update(map[], None))
    ensures Merge(map[0 := -1], NonNegative(), 1, (x: Option<int>, y: Option<int>) => Ok(None)) == Ok(JavaMaps.Update(map[0 := 1], Some(1)))
  {
    assert map[0 := -1] - {0} == map[];
    assert Views.Get(map[0 := -1], NonNegative()) == None;
    assert map[0 := -1][0 := 1] == map[0 := 1];
  }

  /** The code replaces a valid stored 1 with the supplied 5; as documented, 1 stays. */
  lemma SupplyIfAbsentOverwrites()
    ensures Protocol.SupplyIfAbsent(map[0 := 1], Plain(), () => Ok(Some(5))) == Ok(JavaMaps.Update(map[0 := 5], Some(5)))
    ensures SupplyIfAbsent(map[0 := 1], Plain(), () => Ok(Some(5))) == Ok(JavaMaps.Update(map[0 := 1], Some(1)))
  {
    PlainIsStable();
    assert map[0 := 1][0 := 5] == map[0 := 5];
    assert Views.Get(map[0 := 1], Plain()) == Some(1);
    assert map[0 := 1][0 := 1] == map[0 := 1];
  }

  /** The code inserts the supplied 5 under an absent key; as documented, the map stays empty. */
  lemma SupplyIfPresentInserts()
    ensures Protocol.SupplyIfPresent(map[], Plain(), () => Ok(Some(5))) == Ok(JavaMaps.Update(map[0 := 5], Some(5)))
    ensures SupplyIfPresent(map[], Plain(), () => Ok(Some(5))) == Ok(JavaMaps.Update(map[], None))
  {
  }
}
