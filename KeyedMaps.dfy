/**
 * A JavaScript `Map` with numeric keys, as `MemStorage` uses it: a dictionary
 * that also remembers the order in which its keys were first inserted, which
 * is the order `values()` reports them in.
 */
module KeyedMaps {
  import opened Options
  import opened Seqs

  /** `keys` lists the keys in insertion order; `entries` holds the value of each. */
  datatype KeyedMap<V> = KeyedMap(keys: seq<int>, entries: map<int, V>)

  predicate Distinct(keys: seq<int>) {
    forall i, j :: 0 <= i < j < |keys| ==> keys[i] != keys[j]
  }

  /** Every key is listed exactly once, and exactly the listed keys have entries. */
  ghost predicate Valid<V>(m: KeyedMap<V>) {
    && Distinct(m.keys)
    && (forall i :: 0 <= i < |m.keys| ==> m.keys[i] in m.entries)
    && (forall k :: k in m.entries ==> k in m.keys)
  }

  /** `new Map()`. */
  function Empty<V>(): (m: KeyedMap<V>)
    ensures Valid(m) && m.keys == []
  {
    KeyedMap([], map[])
  }

  /** `m.get(k)`: the value stored under `k`, or `undefined`. */
  function Get<V>(m: KeyedMap<V>, k: int): Option<V> {
    if k in m.entries then Some(m.entries[k]) else None
  }

  /** `m.set(k, v)`: a new key goes to the end of the order; an existing key keeps its place. */
  function Set<V>(m: KeyedMap<V>, k: int, v: V): KeyedMap<V> {
    if k in m.entries then KeyedMap(m.keys, m.entries[k := v])
    else KeyedMap(m.keys + [k], m.entries[k := v])
  }

  /** `m.delete(k)`: the key leaves the order and the dictionary (nothing happens when it is absent). */
  function Delete<V>(m: KeyedMap<V>, k: int): KeyedMap<V> {
    KeyedMap(Filter(m.keys, x => x != k), m.entries - {k})
  }

  /** `Array.from(m.values())`: the values in key insertion order. */
  function Values<V>(m: KeyedMap<V>): seq<V>
    requires Valid(m)
  {
    seq(|m.keys|, i requires 0 <= i < |m.keys| => m.entries[m.keys[i]])
  }

  /** Every value listed is the entry of some key. */
  lemma ValuesStored<V>(m: KeyedMap<V>)
    requires Valid(m)
    ensures forall v :: v in Values(m) ==> exists k :: k in m.entries && m.entries[k] == v
  {
    forall v | v in Values(m)
      ensures exists k :: k in m.entries && m.entries[k] == v
    {
      var i :| 0 <= i < |Values(m)| && Values(m)[i] == v;
      assert m.entries[m.keys[i]] == v;
    }
  }

  /** Every stored entry is listed by `values()`. */
  lemma ValuesComplete<V>(m: KeyedMap<V>)
    requires Valid(m)
    ensures forall k :: k in m.entries ==> m.entries[k] in Values(m)
  {
    forall k | k in m.entries
      ensures m.entries[k] in Values(m)
    {
      var i :| 0 <= i < |m.keys| && m.keys[i] == k;
      assert Values(m)[i] == m.entries[k];
    }
  }

  /** After a set, the key maps to the new value, every other key is untouched, and the map stays valid. */
  lemma SetFacts<V>(m: KeyedMap<V>, k: int, v: V)
    requires Valid(m)
    ensures Valid(Set(m, k, v))
    ensures Get(Set(m, k, v), k) == Some(v)
    ensures forall j :: j != k ==> Get(Set(m, k, v), j) == Get(m, j)
  {
    var r := Set(m, k, v);
    if k !in m.entries {
      forall i, j | 0 <= i < j < |r.keys|
        ensures r.keys[i] != r.keys[j]
      {
        if j == |m.keys| {
          assert r.keys[i] == m.keys[i];
        }
      }
    }
  }

  /** Setting a new key appends its value to `values()`. */
  lemma SetNewKeyAppends<V>(m: KeyedMap<V>, k: int, v: V)
    requires Valid(m) && Get(m, k) == None
    ensures Valid(Set(m, k, v))
    ensures Values(Set(m, k, v)) == Values(m) + [v]
  {
    SetFacts(m, k, v);
    var r := Set(m, k, v);
    forall i | 0 <= i < |m.keys|
      ensures Values(r)[i] == Values(m)[i]
    {
      assert m.keys[i] != k;
    }
  }

  /** Setting an existing key replaces its value where it stands in `values()`, keeping the order. */
  lemma SetOldKeyReplaces<V>(m: KeyedMap<V>, k: int, v: V, i: int)
    requires Valid(m) && 0 <= i < |m.keys| && m.keys[i] == k
    ensures Valid(Set(m, k, v))
    ensures Values(Set(m, k, v)) == Values(m)[i := v]
  {
    SetFacts(m, k, v);
    var r := Set(m, k, v);
    forall j | 0 <= j < |m.keys|
      ensures Values(r)[j] == Values(m)[i := v][j]
    {
      if j != i {
        assert m.keys[j] != k;
      }
    }
  }

  /** After a delete the key is gone, every other key is untouched, and the map stays valid. */
  lemma DeleteFacts<V>(m: KeyedMap<V>, k: int)
    requires Valid(m)
    ensures Valid(Delete(m, k))
    ensures Get(Delete(m, k), k) == None
    ensures forall j :: j != k ==> Get(Delete(m, k), j) == Get(m, j)
  {
    var r := Delete(m, k);
    FilterMembers(m.keys, x => x != k);
    FilterKeepsDistinct(m.keys, x => x != k);
    forall i | 0 <= i < |r.keys|
      ensures r.keys[i] in r.entries
    {
      assert r.keys[i] in r.keys;
    }
  }

  /** A delete shortens the key order by one exactly when the key was present. */
  lemma DeleteShrinks<V>(m: KeyedMap<V>, k: int)
    requires Valid(m)
    ensures |Delete(m, k).keys| == if Get(m, k).Some? then |m.keys| - 1 else |m.keys|
  {
    DistinctCount(m.keys, k);
    FilterOutCount(m.keys, k);
  }

  /** Deleting an absent key changes nothing. */
  lemma DeleteAbsent<V>(m: KeyedMap<V>, k: int)
    requires Valid(m) && Get(m, k) == None
    ensures Delete(m, k) == m
  {
    var p := (x: int) => x != k;
    FilterAllWhenAllSatisfy(m.keys, p);
    assert m.entries - {k} == m.entries;
  }

  lemma {:induction false} FilterKeepsDistinct(s: seq<int>, p: int -> bool)
    requires Distinct(s)
    ensures Distinct(Filter(s, p))
  {
    if s != [] {
      var tail := s[1..];
      assert Distinct(tail) by {
        forall i, j | 0 <= i < j < |tail| ensures tail[i] != tail[j] {
          assert tail[i] == s[i + 1] && tail[j] == s[j + 1];
        }
      }
      FilterKeepsDistinct(tail, p);
      var rest := Filter(tail, p);
      if p(s[0]) {
        assert s[0] !in tail by {
          forall n | 0 <= n < |tail| ensures tail[n] != s[0] {
            assert tail[n] == s[n + 1];
          }
        }
        FilterMembers(tail, p);
        var r := [s[0]] + rest;
        assert Filter(s, p) == r;
        forall i, j | 0 <= i < j < |r|
          ensures r[i] != r[j]
        {
          assert r[j] == rest[j - 1];
          if i > 0 {
            assert r[i] == rest[i - 1];
          } else {
            assert r[j] in rest;
          }
        }
      }
    }
  }

  /** Filtering out one value removes each of its occurrences and nothing else. */
  lemma {:induction false} FilterOutCount(s: seq<int>, k: int)
    ensures |Filter(s, x => x != k)| == |s| - multiset(s)[k]
  {
    if s != [] {
      FilterOutCount(s[1..], k);
      assert s == [s[0]] + s[1..];
    }
  }

  /** In a list without repeats, a listed key occurs exactly once. */
  lemma {:induction false} DistinctCount(s: seq<int>, k: int)
    requires Distinct(s)
    ensures multiset(s)[k] == if k in s then 1 else 0
  {
    if s != [] {
      DistinctCount(s[1..], k);
      assert s == [s[0]] + s[1..];
      if s[0] == k {
        forall n | 0 <= n < |s[1..]|
          ensures s[1..][n] != k
        {
          assert s[1..][n] == s[n + 1];
        }
      }
    }
  }
}
