/** JavaScript plain objects used as dictionaries (`{}` with string keys).
    A `Dict` keeps the object's properties as a map together with the order in
    which `Object.keys` and `for-in` enumerate them (insertion order). */
module Dicts {

  datatype Dict<V> = Dict(keys: seq<string>, vals: map<string, V>) {
    /** Every property is enumerated exactly once. */
    ghost predicate Valid() {
      Distinct(keys) && forall k :: k in vals <==> k in keys
    }
  }

  ghost predicate Distinct<T>(s: seq<T>) {
    forall i, j :: 0 <= i < j < |s| ==> s[i] != s[j]
  }

  /** The object literal `{}`. */
  function Empty<V>(): (d: Dict<V>)
    ensures d.Valid() && d.keys == [] && d.vals == map[]
  {
    Dict([], map[])
  }

  /** `d[k] | 0`: the stored count, or 0 for a missing property. */
  function Lookup(d: Dict<nat>, k: string): nat {
    if k in d.vals then d.vals[k] else 0
  }

  /** `d[k] = v`: a new property is enumerated after the existing ones,
      an existing one keeps its place. */
  function Put<V>(d: Dict<V>, k: string, v: V): (r: Dict<V>)
  {
    if k in d.vals then Dict(d.keys, d.vals[k := v]) else Dict(d.keys + [k], d.vals[k := v])
  }

  /** Assignment keeps every property enumerated exactly once. */
  lemma {:induction false} PutValid<V>(d: Dict<V>, k: string, v: V)
    requires d.Valid()
    ensures Put(d, k, v).Valid()
  {
  }

  /** Sum of the values stored under `keys` (missing keys count 0). */
  function SumOver(keys: seq<string>, vals: map<string, nat>): nat {
    if keys == [] then 0
    else SumOver(keys[..|keys| - 1], vals) + (if keys[|keys| - 1] in vals then vals[keys[|keys| - 1]] else 0)
  }

  function Sum(d: Dict<nat>): nat {
    SumOver(d.keys, d.vals)
  }

  /** Overwriting a key that is not listed leaves the sum unchanged. */
  lemma {:induction false} SumOverUnlisted(keys: seq<string>, vals: map<string, nat>, k: string, v: nat)
    requires k !in keys
    ensures SumOver(keys, vals[k := v]) == SumOver(keys, vals)
  {
    if keys != [] {
      SumOverUnlisted(keys[..|keys| - 1], vals, k, v);
    }
  }

  /** Overwriting a key listed exactly once changes the sum by the difference. */
  lemma {:induction false} SumOverListed(keys: seq<string>, vals: map<string, nat>, k: string, v: nat)
    requires Distinct(keys) && k in keys && k in vals
    ensures SumOver(keys, vals[k := v]) + vals[k] == SumOver(keys, vals) + v
  {
    var init := keys[..|keys| - 1];
    if keys[|keys| - 1] == k {
      assert k !in init by {
        forall i | 0 <= i < |init| ensures init[i] != k {
          assert keys[i] == init[i];
        }
      }
      SumOverUnlisted(init, vals, k, v);
    } else {
      assert k in init by {
        var i :| 0 <= i < |keys| && keys[i] == k;
        assert init[i] == k;
      }
      SumOverListed(init, vals, k, v);
    }
  }

  /** How `d[k] = v` changes the sum of the values of a valid dictionary. */
  lemma {:induction false} SumPut(d: Dict<nat>, k: string, v: nat)
    requires d.Valid()
    ensures Sum(Put(d, k, v)) + Lookup(d, k) == Sum(d) + v
  {
    var r := Put(d, k, v);
    PutValid(d, k, v);
    if k in d.vals {
      SumOverListed(d.keys, d.vals, k, v);
    } else {
      assert r.keys[..|r.keys| - 1] == d.keys;
      SumOverUnlisted(d.keys, d.vals, k, v);
    }
  }

  /** A sequence without repetitions has as many elements as its set of elements. */
  lemma {:induction false} DistinctCard<T>(s: seq<T>)
    requires Distinct(s)
    ensures |set x | x in s| == |s|
  {
    if s != [] {
      var init, last := s[..|s| - 1], s[|s| - 1];
      assert Distinct(init) by {
        forall i, j | 0 <= i < j < |init| ensures init[i] != init[j] {
          assert init[i] == s[i] && init[j] == s[j];
        }
      }
      DistinctCard(init);
      assert last !in init by {
        forall i | 0 <= i < |init| ensures init[i] != last {
          assert init[i] == s[i];
        }
      }
      assert (set x | x in s) == (set x | x in init) + {last} by {
        assert s == init + [last];
      }
    }
  }
}
