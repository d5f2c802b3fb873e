/**
 * A string-keyed dictionary that remembers insertion order, as a JavaScript `Map` (and a plain
 * object whose keys are not array indices) does: a sequence of (key, value) pairs. `Set`
 * overwrites the value of an existing key where it stands and appends a new key at the end.
 */
module OrderedMaps {

  import opened Wrappers

  type OMap<V> = seq<(string, V)>

  /** The keys, in insertion order (`[...m.keys()]`). */
  function Keys<V>(m: OMap<V>): (ks: seq<string>)
    ensures |ks| == |m| && forall i :: 0 <= i < |m| ==> ks[i] == m[i].0
  {
    if m == [] then [] else [m[0].0] + Keys(m[1..])
  }

  /** No key is stored twice. */
  predicate Distinct(ks: seq<string>)
  {
    forall i, j :: 0 <= i < j < |ks| ==> ks[i] != ks[j]
  }

  /** `m.get(k)`, with `None` for `undefined`. */
  function Get<V>(m: OMap<V>, k: string): (r: Option<V>)
    ensures r.Some? <==> k in Keys(m)
  {
    if m == [] then None
    else if m[0].0 == k then Some(m[0].1)
    else Get(m[1..], k)
  }

  /** `m.set(k, v)` (for an object, `o[k] = v`). */
  function Set<V>(m: OMap<V>, k: string, v: V): (r: OMap<V>)
    ensures Get(r, k) == Some(v)
    ensures forall k' :: k' != k ==> Get(r, k') == Get(m, k')
  {
    if m == [] then [(k, v)]
    else if m[0].0 == k then
      var r := [(k, v)] + m[1..];
      assert r[1..] == m[1..];
      r
    else
      var t := Set(m[1..], k, v);
      var r := [m[0]] + t;
      assert r[1..] == t;
      r
  }

  /**
   * `Set` on a present key keeps every key where it was; on a new key it appends the pair at the
   * end, so keys stay in the order of their first insertion.
   */
  lemma {:induction false} SetKeys<V>(m: OMap<V>, k: string, v: V)
    ensures k in Keys(m) ==> Keys(Set(m, k, v)) == Keys(m)
    ensures k !in Keys(m) ==> Set(m, k, v) == m + [(k, v)]
  {
    if m != [] && m[0].0 != k {
      SetKeys(m[1..], k, v);
      assert m == [m[0]] + m[1..];
    }
  }

  /** After `Set`, the keys are the old keys and the key set. */
  lemma SetKeysIn<V>(m: OMap<V>, k: string, v: V, k': string)
    ensures k' in Keys(Set(m, k, v)) <==> k' in Keys(m) || k' == k
  {
    SetKeys(m, k, v);
    if k !in Keys(m) {
      var r := m + [(k, v)];
      assert Keys(r) == Keys(m) + [k];
    }
  }

  /** `Set` never stores a key twice. */
  lemma SetKeepsDistinct<V>(m: OMap<V>, k: string, v: V)
    requires Distinct(Keys(m))
    ensures Distinct(Keys(Set(m, k, v)))
  {
    SetKeys(m, k, v);
    if k !in Keys(m) {
      var r := m + [(k, v)];
      var ks, rs := Keys(m), Keys(r);
      forall i, j | 0 <= i < j < |rs|
        ensures rs[i] != rs[j]
      {
        assert rs[i] == ks[i];
        if j < |m| {
          assert rs[j] == ks[j];
        } else {
          assert rs[j] == k;
        }
      }
    }
  }

  /** The key at position `i` of a map with distinct keys is looked up to the value at `i`. */
  lemma {:induction false} GetAt<V>(m: OMap<V>, i: int)
    requires Distinct(Keys(m)) && 0 <= i < |m|
    ensures Get(m, m[i].0) == Some(m[i].1)
  {
    if i > 0 {
      GetAt(m[1..], i - 1);
    }
  }

  /** A key of a map is the key of one of its entries. */
  lemma KeyOfEntry<V>(m: OMap<V>, k: string)
    ensures k in Keys(m) <==> exists v :: (k, v) in m
  {
    if k in Keys(m) {
      var i :| 0 <= i < |m| && Keys(m)[i] == k;
      assert (k, m[i].1) == m[i];
    }
  }

  /** With distinct keys, looking a key up finds exactly the value of its entry. */
  lemma {:induction false} GetIffEntry<V>(m: OMap<V>, k: string, v: V)
    requires Distinct(Keys(m))
    ensures Get(m, k) == Some(v) <==> (k, v) in m
  {
    if (k, v) in m {
      var i :| 0 <= i < |m| && m[i] == (k, v);
      GetAt(m, i);
    }
    if m != [] && Get(m, k) == Some(v) && m[0].0 != k {
      assert Distinct(Keys(m[1..])) by {
        assert forall i :: 0 <= i < |m| - 1 ==> Keys(m[1..])[i] == Keys(m)[i + 1];
      }
      GetIffEntry(m[1..], k, v);
    }
  }

}
