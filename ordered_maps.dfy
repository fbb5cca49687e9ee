/**
 * Python's insertion-ordered `dict` with string keys: a key sequence (iteration order) beside a map.
 * Assigning to a key already present replaces its value and keeps its position;
 * a new key goes to the end.
 */
module OrderedMaps {

  datatype OMap<V> = OMap(keys: seq<string>, m: map<string, V>)

  /** No key is listed twice. */
  predicate Distinct(s: seq<string>) {
    s == [] || (s[|s| - 1] !in s[..|s| - 1] && Distinct(s[..|s| - 1]))
  }

  /** The set of keys listed. */
  function KeySet(s: seq<string>): set<string> {
    if s == [] then {} else KeySet(s[..|s| - 1]) + {s[|s| - 1]}
  }

  /**
   * Representation invariant: the keys are listed once each, and they are exactly the keys of `m`.
   * Both halves are recursive so that the solver unfolds them only on demand; the lemmas
   * below give the same facts index by index.
   */
  predicate Valid<V>(o: OMap<V>) {
    Distinct(o.keys) && o.m.Keys == KeySet(o.keys)
  }

  lemma {:induction false} KeySetIsMembership(s: seq<string>)
    ensures forall k :: k in KeySet(s) <==> k in s
  {
    if s != [] {
      KeySetIsMembership(s[..|s| - 1]);
      assert s == s[..|s| - 1] + [s[|s| - 1]];
    }
  }

  lemma {:induction false} DistinctIndices(s: seq<string>)
    requires Distinct(s)
    ensures forall i, j :: 0 <= i < j < |s| ==> s[i] != s[j]
  {
    if s != [] {
      var init := s[..|s| - 1];
      DistinctIndices(init);
      forall i, j | 0 <= i < j < |s| ensures s[i] != s[j] {
        if j == |s| - 1 { assert s[i] == init[i]; } else { assert s[i] == init[i] && s[j] == init[j]; }
      }
    }
  }

  /** Index-wise reading of `Valid`. */
  lemma KeysListed<V>(o: OMap<V>)
    requires Valid(o)
    ensures forall i :: 0 <= i < |o.keys| ==> o.keys[i] in o.m
    ensures forall k :: k in o.m <==> k in o.keys
    ensures forall i, j :: 0 <= i < j < |o.keys| ==> o.keys[i] != o.keys[j]
  {
    KeySetIsMembership(o.keys);
    DistinctIndices(o.keys);
  }

  function Empty<V>(): (r: OMap<V>)
    ensures Valid(r) && r.keys == [] && r.m == map[]
  {
    OMap([], map[])
  }

  /** `d[k] = v` */
  function Put<V>(o: OMap<V>, k: string, v: V): (r: OMap<V>)
    ensures r.m == o.m[k := v]
    ensures r.keys == if k in o.m then o.keys else o.keys + [k]
  {
    if k in o.m then OMap(o.keys, o.m[k := v]) else OMap(o.keys + [k], o.m[k := v])
  }

  /** Assignment keeps the dictionary well-formed. */
  lemma PutValid<V>(o: OMap<V>, k: string, v: V)
    requires Valid(o)
    ensures Valid(Put(o, k, v))
  {
    if k !in o.m {
      var ks := o.keys + [k];
      assert ks[..|ks| - 1] == o.keys;
      KeySetIsMembership(o.keys);
    }
  }

  /** `d.get(k, default)`, which never inserts. */
  function GetOr<V>(o: OMap<V>, k: string, default: V): V {
    if k in o.m then o.m[k] else default
  }

  /**
   * `list(d.values())`, in iteration order; `default` is never used when `o` is well-formed,
   * since every listed key is then a key of the map.
   */
  function ValuesOr<V>(o: OMap<V>, default: V): (r: seq<V>)
    ensures |r| == |o.keys|
    ensures forall i :: 0 <= i < |r| ==> r[i] == GetOr(o, o.keys[i], default)
  {
    seq(|o.keys|, i requires 0 <= i < |o.keys| => GetOr(o, o.keys[i], default))
  }
}
