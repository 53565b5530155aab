/**
 * A layered source (`LayeringSymbolSource`): an ordered sequence of mappings
 * searched front to back, the first layer that has a valid value winning.
 * It short-circuits: no layer after the first hit is consulted.
 */
module Layering {
  import opened Wrappers
  import opened Symbols
  import Views
  import opened SymbolMappings

  /** `get`: the first non-null per-layer `get`, or null when every layer misses. */
  function Get<K, V(==)>(layers: seq<SymbolMapping<K, V>>, s: Symbol<K, V>): (r: Option<V>)
    ensures r.None? <==> forall i | 0 <= i < |layers| :: Views.Get(layers[i].entries, s).None?
    ensures r.Some? ==> exists i | 0 <= i < |layers| ::
              && Views.Get(layers[i].entries, s) == r
              && forall j | 0 <= j < i :: Views.Get(layers[j].entries, s).None?
  {
    if |layers| == 0 then None
    else
      var hit := Views.Get(layers[0].entries, s);
      if hit.Some? then hit else Get(layers[1..], s)
  }

  /** `use`: `get` when it found a value, otherwise the symbol's fallback. */
  function Use<K, V(==)>(layers: seq<SymbolMapping<K, V>>, s: Symbol<K, V>): (r: Option<V>)
    ensures (exists i | 0 <= i < |layers| :: Views.Contains(layers[i].entries, s)) ==> r == Get(layers, s)
    ensures (forall i | 0 <= i < |layers| :: !Views.Contains(layers[i].entries, s)) ==> r == s.fallback
  {
    match Get(layers, s)
    case Some(v) => Some(v)
    case None => s.fallback
  }

  /** `find`: present exactly when `get` is non-null, holding the same value. */
  function Find<K, V(==)>(layers: seq<SymbolMapping<K, V>>, s: Symbol<K, V>): (r: Option<V>)
    ensures r.Some? <==> exists i | 0 <= i < |layers| :: Views.Contains(layers[i].entries, s)
    ensures r.Some? ==> r == Get(layers, s)
  {
    Get(layers, s)
  }

  /**
   * `yield`: the first per-layer result that reports a present value;
   * otherwise the result of the empty mapping, which has no argument and
   * carries the fallback.
   */
  function Yield<K, V(==)>(layers: seq<SymbolMapping<K, V>>, s: Symbol<K, V>): (r: Views.AdaptationResult<V>)
    ensures r.IsPresent() <==> Get(layers, s).Some?
    ensures r.value == Get(layers, s) && r.fallback == s.fallback
    ensures !r.IsPresent() ==> r == Views.Yield(Empty<K, V>().entries, s) && r.argument.None?
    ensures r.IsPresent() ==> exists i | 0 <= i < |layers| ::
              && r == Views.Yield(layers[i].entries, s)
              && forall j | 0 <= j < i :: !Views.Yield(layers[j].entries, s).IsPresent()
  {
    if |layers| == 0 then Views.Yield(Empty<K, V>().entries, s)
    else
      var result := Views.Yield(layers[0].entries, s);
      if result.IsPresent() then result else Yield(layers[1..], s)
  }

  /**
   * Layering composes by concatenation: stacking `upper` over `lower` answers
   * from `upper` when it has a value and from `lower` otherwise.
   */
  lemma {:induction false} GetStacked<K, V>(upper: seq<SymbolMapping<K, V>>, lower: seq<SymbolMapping<K, V>>, s: Symbol<K, V>)
    ensures Get(upper + lower, s) == if Get(upper, s).Some? then Get(upper, s) else Get(lower, s)
  {
    if |upper| > 0 {
      assert (upper + lower)[0] == upper[0];
      assert (upper + lower)[1..] == upper[1..] + lower;
      GetStacked(upper[1..], lower, s);
    } else {
      assert upper + lower == lower;
    }
  }

  /**
   * Short-circuiting: once a prefix of the layers has a hit, no later layer
   * can change the answer, whatever it holds.
   */
  lemma LaterLayersAreNotConsulted<K, V>(layers: seq<SymbolMapping<K, V>>, later: seq<SymbolMapping<K, V>>, s: Symbol<K, V>)
    requires Get(layers, s).Some?
    ensures Get(layers + later, s) == Get(layers, s)
  {
    GetStacked(layers, later, s);
  }

  /**
   * A layer that misses, because it lacks the key or because its entry does
   * not adapt, is skipped: the answer comes from the layers below it.
   */
  lemma {:induction false} MissingLayerIsSkipped<K, V>(upper: seq<SymbolMapping<K, V>>, miss: SymbolMapping<K, V>, lower: seq<SymbolMapping<K, V>>, s: Symbol<K, V>)
    requires Get(upper, s).None?
    requires !Views.Contains(miss.entries, s)
    ensures Get(upper + [miss] + lower, s) == Get(lower, s)
  {
    GetStacked(upper, [miss] + lower, s);
    assert upper + [miss] + lower == upper + ([miss] + lower);
    assert ([miss] + lower)[1..] == lower;
  }

  /**
   * What the layered `yield` reports agrees with the layered `get` at every
   * depth: both stop at the same layer.
   */
  lemma {:induction false} YieldStopsWhereGetStops<K, V>(upper: seq<SymbolMapping<K, V>>, lower: seq<SymbolMapping<K, V>>, s: Symbol<K, V>)
    requires Get(upper, s).Some?
    ensures Yield(upper + lower, s) == Yield(upper, s)
  {
    assert (upper + lower)[0] == upper[0];
    if !Views.Contains(upper[0].entries, s) {
      assert (upper + lower)[1..] == upper[1..] + lower;
      YieldStopsWhereGetStops(upper[1..], lower, s);
    }
  }

  /** What `LayeringSymbolSource.from` returns: the empty mapping, or a layered source. */
  datatype SymbolSource<K, V(==)> = Mapping(mapping: SymbolMapping<K, V>) | Layers(layers: seq<SymbolMapping<K, V>>)

  /** `get` of a source, whichever kind it is. */
  function SourceGet<K, V(==)>(source: SymbolSource<K, V>, s: Symbol<K, V>): Option<V> {
    match source
    case Mapping(m) => Views.Get(m.entries, s)
    case Layers(ls) => Get(ls, s)
  }

  /**
   * `from`: no sources at all give the empty mapping; otherwise a null
   * element is refused (None stands for the `NullPointerException`) and the
   * layers keep the given order.
   */
  function From<K, V(==)>(sources: seq<Option<SymbolMapping<K, V>>>): (r: Option<SymbolSource<K, V>>)
    ensures |sources| == 0 ==> r == Some(Mapping(Empty()))
    ensures |sources| > 0 ==> (r.None? <==> exists i | 0 <= i < |sources| :: sources[i].None?)
    ensures |sources| > 0 && r.Some? ==> r.value.Layers? && |r.value.layers| == |sources|
    ensures |sources| > 0 && r.Some? ==> forall i | 0 <= i < |sources| :: sources[i] == Some(r.value.layers[i])
  {
    if |sources| == 0 then Some(Mapping(Empty()))
    else if exists i | 0 <= i < |sources| :: sources[i].None? then None
    else Some(Layers(seq(|sources|, i requires 0 <= i < |sources| => sources[i].value)))
  }

  /** A source built by `from` answers `get` with the first hit over the given mappings, in order. */
  lemma FromAnswersFirstHit<K, V>(sources: seq<Option<SymbolMapping<K, V>>>, s: Symbol<K, V>, i: nat)
    requires From(sources).Some?
    requires i < |sources| && Views.Contains(sources[i].value.entries, s)
    requires forall j | 0 <= j < i :: !Views.Contains(sources[j].value.entries, s)
    ensures SourceGet(From(sources).value, s) == Views.Get(sources[i].value.entries, s)
  {
    var ls := From(sources).value.layers;
    assert ls == ls[..i] + [ls[i]] + ls[i + 1..];
    assert Get(ls[..i], s).None?;
    GetStacked(ls[..i], [ls[i]] + ls[i + 1..], s);
    assert ls[..i] + [ls[i]] + ls[i + 1..] == ls[..i] + ([ls[i]] + ls[i + 1..]);
  }
}
