/**
 * PHP arrays with string keys: an insertion-ordered key list together with
 * the key-to-value map. `foreach` walks `keys` in order, `$a[$k] = $v` is `Put`.
 */
module Dicts {
  import opened Wrappers

  ghost predicate Distinct(s: seq<string>)
  {
    forall i, j :: 0 <= i < j < |s| ==> s[i] != s[j]
  }

  datatype Dict<V> = Dict(keys: seq<string>, vals: map<string, V>) {

    /** Keys are listed once each, and exactly the keys of the map are listed. */
    ghost predicate Valid()
    {
      Distinct(keys) && forall k :: k in vals <==> k in keys
    }

    function Get(k: string): (r: Option<V>)
      ensures r.Some? <==> k in vals
      ensures r.Some? ==> r.value == vals[k]
    {
      if k in vals then Some(vals[k]) else None
    }

    /** `$a[$k] = $v`: an existing key keeps its position, a new key goes last. */
    function Put(k: string, v: V): (r: Dict<V>)
      ensures Valid() ==> r.Valid()
      ensures r.vals == vals[k := v]
      ensures k in vals ==> r.keys == keys
      ensures k !in vals ==> r.keys == keys + [k]
    {
      if k in vals then Dict(keys, vals[k := v]) else Dict(keys + [k], vals[k := v])
    }
  }

  function Empty<V>(): (r: Dict<V>)
    ensures r.Valid() && r.keys == [] && r.vals == map[]
  {
    Dict([], map[])
  }

  /** The keys of `ks` that lie in `s`, in their order. */
  function FilterKeys(ks: seq<string>, s: set<string>): (r: seq<string>)
    ensures forall k :: k in r <==> k in ks && k in s
    ensures Distinct(ks) ==> Distinct(r)
  {
    if ks == [] then []
    else
      var rest := FilterKeys(ks[1..], s);
      assert forall k :: k in ks[1..] ==> k in ks;
      if ks[0] in s then [ks[0]] + rest else rest
  }

  /** Puts the entries of `vs` named by `ks`, one after the other. */
  function PutAll<V>(a: Dict<V>, ks: seq<string>, vs: map<string, V>): (r: Dict<V>)
    ensures a.Valid() ==> r.Valid()
    ensures r.vals.Keys == a.vals.Keys + (set k | k in ks && k in vs)
    ensures |a.keys| <= |r.keys| && r.keys[..|a.keys|] == a.keys
    decreases |ks|
  {
    if ks == [] then a
    else
      var a' := if ks[0] in vs then a.Put(ks[0], vs[ks[0]]) else a;
      assert a'.keys[..|a.keys|] == a.keys;
      assert forall k :: k in ks <==> k == ks[0] || k in ks[1..];
      PutAll(a', ks[1..], vs)
  }

  /**
   * `array_merge($a, $b)` for string keys: the keys of `a` first, then the new
   * keys of `b`; on a shared key the value of `b` wins.
   */
  function ArrayMerge<V>(a: Dict<V>, b: Dict<V>): Dict<V>
  {
    PutAll(a, b.keys, b.vals)
  }

  /** After `PutAll`, a key named by `ks` holds its value in `vs`; every other key keeps its value. */
  lemma {:induction false} PutAllValue<V>(a: Dict<V>, ks: seq<string>, vs: map<string, V>, k: string)
    requires a.Valid()
    requires k in a.vals || (k in ks && k in vs)
    ensures k in PutAll(a, ks, vs).vals
    ensures PutAll(a, ks, vs).vals[k] == if k in ks && k in vs then vs[k] else a.vals[k]
    decreases |ks|
  {
    if ks != [] {
      var a' := if ks[0] in vs then a.Put(ks[0], vs[ks[0]]) else a;
      assert forall j :: j in ks <==> j == ks[0] || j in ks[1..];
      PutAllValue(a', ks[1..], vs, k);
    }
  }

  lemma ArrayMergeProps<V>(a: Dict<V>, b: Dict<V>)
    requires a.Valid() && b.Valid()
    ensures ArrayMerge(a, b).Valid()
    ensures ArrayMerge(a, b).vals == a.vals + b.vals
    ensures |a.keys| <= |ArrayMerge(a, b).keys| && ArrayMerge(a, b).keys[..|a.keys|] == a.keys
  {
    var r := ArrayMerge(a, b);
    assert (set k | k in b.keys && k in b.vals) == b.vals.Keys;
    assert r.vals.Keys == (a.vals + b.vals).Keys;
    forall k | k in r.vals ensures r.vals[k] == (a.vals + b.vals)[k] {
      PutAllValue(a, b.keys, b.vals, k);
    }
  }

  /** Rewrites every value with `f`; keys and their order are kept. */
  function MapValues<V, W>(d: Dict<V>, f: V -> W): (r: Dict<W>)
    ensures r.keys == d.keys && r.vals.Keys == d.vals.Keys
    ensures d.Valid() ==> r.Valid()
  {
    Dict(d.keys, map k | k in d.vals :: f(d.vals[k]))
  }

  /** A dict built key by key, as a `foreach` does, is the `MapValues` image. */
  lemma EqualsMapValues<V, W>(d: Dict<V>, r: Dict<W>, f: V -> W)
    requires d.Valid()
    requires r.keys == d.keys && r.vals.Keys == d.vals.Keys
    requires forall j :: 0 <= j < |d.keys| ==> r.vals[d.keys[j]] == f(d.vals[d.keys[j]])
    ensures r == MapValues(d, f)
  {
    forall k | k in d.vals ensures r.vals[k] == f(d.vals[k]) {
      assert k in d.keys;
      var j :| 0 <= j < |d.keys| && d.keys[j] == k;
    }
  }
}
