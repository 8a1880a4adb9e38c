/**
 * The stable sorts the Rust code calls: `Vec::sort_by` / `sort_by_key` on a
 * numeric key (new_only.rs:74, new_only.rs:183, continuous_loop.rs:112).
 * `SortBy` is a reference definition of a stable sort (insertion from the
 * front); the lemmas give the three facts the standard library promises of
 * it: the result is ordered by the key, is a permutation of the input, and
 * keeps the input order among equal keys.
 */
module Sorting {

  predicate SortedBy<T>(s: seq<T>, key: T -> nat) {
    forall i, j :: 0 <= i < j < |s| ==> key(s[i]) <= key(s[j])
  }

  /** Put `x` in front of the first element whose key is not smaller. */
  function Insert<T>(x: T, s: seq<T>, key: T -> nat): (r: seq<T>)
    ensures |r| == |s| + 1
    ensures multiset(r) == multiset(s) + multiset{x}
  {
    if s == [] || key(x) <= key(s[0]) then [x] + s
    else
      assert s == [s[0]] + s[1..];
      [s[0]] + Insert(x, s[1..], key)
  }

  function SortBy<T>(s: seq<T>, key: T -> nat): (r: seq<T>)
    ensures |r| == |s|
    ensures multiset(r) == multiset(s)
  {
    if s == [] then []
    else
      assert s == [s[0]] + s[1..];
      Insert(s[0], SortBy(s[1..], key), key)
  }

  /** The elements of `s` with the given key, in order. */
  function WithKey<T>(s: seq<T>, key: T -> nat, k: nat): seq<T> {
    if s == [] then []
    else (if key(s[0]) == k then [s[0]] else []) + WithKey(s[1..], key, k)
  }

  lemma {:induction false} InsertSorted<T>(x: T, s: seq<T>, key: T -> nat)
    requires SortedBy(s, key)
    ensures SortedBy(Insert(x, s, key), key)
  {
    if s != [] && key(x) > key(s[0]) {
      var tail := Insert(x, s[1..], key);
      InsertSorted(x, s[1..], key);
      InsertAbove(x, s[1..], key, key(s[0]));
      var r := [s[0]] + tail;
      forall i, j | 0 <= i < j < |r| ensures key(r[i]) <= key(r[j]) {
        if i == 0 {
          assert r[j] in tail;
        } else {
          assert r[i] == tail[i - 1] && r[j] == tail[j - 1];
        }
      }
    }
  }

  /** Inserting a key no smaller than a bound into keys no smaller than it keeps every key above the bound. */
  lemma {:induction false} InsertAbove<T>(x: T, s: seq<T>, key: T -> nat, bound: nat)
    requires key(x) >= bound
    requires forall i :: 0 <= i < |s| ==> key(s[i]) >= bound
    ensures forall i :: 0 <= i < |Insert(x, s, key)| ==> key(Insert(x, s, key)[i]) >= bound
  {
    if s != [] && key(x) > key(s[0]) {
      InsertAbove(x, s[1..], key, bound);
      var r := Insert(x, s, key);
      forall i | 0 < i < |r| ensures key(r[i]) >= bound {
        assert r[i] == Insert(x, s[1..], key)[i - 1];
      }
    }
  }

  /** The sort orders its result by the key. */
  lemma {:induction false} SortBySorted<T>(s: seq<T>, key: T -> nat)
    ensures SortedBy(SortBy(s, key), key)
  {
    if s != [] {
      SortBySorted(s[1..], key);
      InsertSorted(s[0], SortBy(s[1..], key), key);
    }
  }

  lemma WithKeyCons<T>(x: T, s: seq<T>, key: T -> nat, k: nat)
    ensures WithKey([x] + s, key, k) == (if key(x) == k then [x] else []) + WithKey(s, key, k)
  {
    assert ([x] + s)[1..] == s;
  }

  lemma {:induction false} InsertWithKey<T>(x: T, s: seq<T>, key: T -> nat, k: nat)
    requires SortedBy(s, key)
    ensures WithKey(Insert(x, s, key), key, k)
         == (if key(x) == k then [x] else []) + WithKey(s, key, k)
  {
    if s == [] || key(x) <= key(s[0]) {
      WithKeyCons(x, s, key, k);
    } else {
      assert SortedBy(s[1..], key);
      InsertWithKey(x, s[1..], key, k);
      WithKeyCons(s[0], Insert(x, s[1..], key), key, k);
      WithKeyCons(s[0], s[1..], key, k);
      assert s == [s[0]] + s[1..];
      if key(x) == k {
        // every element before the insertion point has a smaller key than x
        assert key(s[0]) != k;
      }
    }
  }

  /** The sort is stable: for every key, the elements with that key keep their input order. */
  lemma {:induction false} SortByStable<T>(s: seq<T>, key: T -> nat, k: nat)
    ensures WithKey(SortBy(s, key), key, k) == WithKey(s, key, k)
  {
    if s != [] {
      SortByStable(s[1..], key, k);
      SortBySorted(s[1..], key);
      InsertWithKey(s[0], SortBy(s[1..], key), key, k);
      WithKeyCons(s[0], s[1..], key, k);
      assert s == [s[0]] + s[1..];
    }
  }

  /** The last element of the sorted sequence has the largest key of the input. */
  lemma SortByLastIsMax<T>(s: seq<T>, key: T -> nat)
    requires s != []
    ensures var r := SortBy(s, key);
      r[|r| - 1] in multiset(s) &&
      forall i :: 0 <= i < |s| ==> key(s[i]) <= key(r[|r| - 1])
  {
    var r := SortBy(s, key);
    SortBySorted(s, key);
    assert r[|r| - 1] in multiset(r);
    LastIsMax(r, key);
    forall i | 0 <= i < |s| ensures key(s[i]) <= key(r[|r| - 1]) {
      assert s[i] in multiset(r);
    }
  }

  /** In a sequence sorted by the key, no element has a larger key than the last. */
  lemma LastIsMax<T>(r: seq<T>, key: T -> nat)
    requires r != [] && SortedBy(r, key)
    ensures forall x :: x in r ==> key(x) <= key(r[|r| - 1])
  {
    forall x | x in r ensures key(x) <= key(r[|r| - 1]) {
      var j :| 0 <= j < |r| && r[j] == x;
    }
  }
}
