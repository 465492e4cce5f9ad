/**
 * `Array.prototype.sort` with a comparator `(a, b) => key(a) - key(b)`: a stable
 * sort into ascending key order, written as an insertion sort.
 */
module Sorting {

  predicate SortedBy<T>(s: seq<T>, key: T -> int) {
    forall i, j :: 0 <= i < j < |s| ==> key(s[i]) <= key(s[j])
  }

  /** Puts `x` in front of the first element whose key is not below its own. */
  function InsertBy<T>(x: T, sorted: seq<T>, key: T -> int): seq<T> {
    if sorted == [] || key(x) <= key(sorted[0]) then [x] + sorted
    else [sorted[0]] + InsertBy(x, sorted[1..], key)
  }

  /** Elements with equal keys keep their input order: each is inserted in front of the later ones. */
  function SortBy<T>(s: seq<T>, key: T -> int): seq<T> {
    if s == [] then [] else InsertBy(s[0], SortBy(s[1..], key), key)
  }

  lemma SortedTail<T>(s: seq<T>, key: T -> int)
    requires SortedBy(s, key) && s != []
    ensures SortedBy(s[1..], key)
  {
    var tail := s[1..];
    forall i, j | 0 <= i < j < |tail| ensures key(tail[i]) <= key(tail[j]) {
      assert tail[i] == s[i + 1] && tail[j] == s[j + 1];
    }
  }

  /** Every key in `s` is at least `bound`. */
  predicate KeysFrom<T>(s: seq<T>, key: T -> int, bound: int) {
    forall i :: 0 <= i < |s| ==> bound <= key(s[i])
  }

  lemma {:induction false} InsertByKeysFrom<T>(x: T, sorted: seq<T>, key: T -> int, bound: int)
    requires KeysFrom(sorted, key, bound) && bound <= key(x)
    ensures KeysFrom(InsertBy(x, sorted, key), key, bound)
  {
    if sorted != [] && key(x) > key(sorted[0]) {
      InsertByKeysFrom(x, sorted[1..], key, bound);
    }
  }

  /** Insertion adds exactly the one element. */
  lemma {:induction false} InsertByPermutes<T>(x: T, sorted: seq<T>, key: T -> int)
    ensures multiset(InsertBy(x, sorted, key)) == multiset(sorted) + multiset{x}
  {
    if sorted != [] && key(x) > key(sorted[0]) {
      InsertByPermutes(x, sorted[1..], key);
      assert sorted == [sorted[0]] + sorted[1..];
    }
  }

  /** Insertion keeps the order sorted. */
  lemma {:induction false} InsertBySorted<T>(x: T, sorted: seq<T>, key: T -> int)
    requires SortedBy(sorted, key)
    ensures SortedBy(InsertBy(x, sorted, key), key)
  {
    if sorted == [] {
    } else if key(x) <= key(sorted[0]) {
      var r := [x] + sorted;
      forall i, j | 0 <= i < j < |r|
        ensures key(r[i]) <= key(r[j])
      {
        assert r[j] == sorted[j - 1];
        if i > 0 {
          assert r[i] == sorted[i - 1];
        }
      }
    } else {
      var tail := sorted[1..];
      SortedTail(sorted, key);
      InsertBySorted(x, tail, key);
      assert KeysFrom(tail, key, key(sorted[0])) by {
        forall i | 0 <= i < |tail| ensures key(sorted[0]) <= key(tail[i]) {
          assert tail[i] == sorted[i + 1];
        }
      }
      InsertByKeysFrom(x, tail, key, key(sorted[0]));
      var rest := InsertBy(x, tail, key);
      var r := [sorted[0]] + rest;
      forall i, j | 0 <= i < j < |r|
        ensures key(r[i]) <= key(r[j])
      {
        assert r[j] == rest[j - 1];
        if i > 0 {
          assert r[i] == rest[i - 1];
        }
      }
    }
  }

  /** The sort yields ascending keys and a permutation of its input. */
  lemma {:induction false} SortByFacts<T>(s: seq<T>, key: T -> int)
    ensures SortedBy(SortBy(s, key), key)
    ensures multiset(SortBy(s, key)) == multiset(s)
    ensures |SortBy(s, key)| == |s|
  {
    if s != [] {
      SortByFacts(s[1..], key);
      InsertBySorted(s[0], SortBy(s[1..], key), key);
      InsertByPermutes(s[0], SortBy(s[1..], key), key);
      assert s == [s[0]] + s[1..];
      assert |SortBy(s, key)| == |multiset(SortBy(s, key))|;
    }
  }
}
