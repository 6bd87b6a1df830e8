/**
 * `Array.prototype.sort` with a comparator that subtracts numeric keys, as both result lists
 * use it (microfuzz.bundle.js:22 and 160, index.js:181). The sort is stable (section 23.1.3.30
 * of ECMA-262, since its 2019 edition), so its outcome is fixed: the elements ordered by key, and
 * elements with equal keys in their original order. It is modelled as an insertion sort on values.
 */
module StableSort {

  predicate SortedBy<T>(s: seq<T>, key: T -> real) {
    forall a, b :: 0 <= a < b < |s| ==> key(s[a]) <= key(s[b])
  }

  /** `x` placed before the first element whose key is not smaller than its own. */
  function Insert<T>(x: T, s: seq<T>, key: T -> real): (r: seq<T>)
    ensures multiset(r) == multiset(s) + multiset{x}
    ensures SortedBy(s, key) ==> SortedBy(r, key)
  {
    if |s| == 0 || key(x) <= key(s[0]) then [x] + s
    else
      var rest := Insert(x, s[1..], key);
      assert s == [s[0]] + s[1..];
      HeadStaysFirst(x, s, rest, key);
      [s[0]] + rest
  }

  /** In a sorted `s`, the head's key is a lower bound of every element of `s[1..]` and of any larger `x`. */
  lemma HeadStaysFirst<T>(x: T, s: seq<T>, rest: seq<T>, key: T -> real)
    requires |s| > 0 && key(s[0]) < key(x)
    requires multiset(rest) == multiset(s[1..]) + multiset{x}
    requires SortedBy(s, key) ==> SortedBy(rest, key)
    ensures SortedBy(s, key) ==> SortedBy([s[0]] + rest, key)
  {
    if SortedBy(s, key) {
      forall b | 0 <= b < |rest|
        ensures key(s[0]) <= key(rest[b])
      {
        assert rest[b] in multiset(rest);
        if rest[b] != x {
          assert rest[b] in multiset(s[1..]);
          var c :| 0 <= c < |s[1..]| && s[1..][c] == rest[b];
          assert s[c + 1] == rest[b];
        }
      }
      var r := [s[0]] + rest;
      forall a, b | 0 <= a < b < |r|
        ensures key(r[a]) <= key(r[b])
      {
        if a > 0 {
          assert r[a] == rest[a - 1] && r[b] == rest[b - 1];
        } else {
          assert r[b] == rest[b - 1];
        }
      }
    }
  }

  function Sort<T>(s: seq<T>, key: T -> real): (r: seq<T>)
    ensures multiset(r) == multiset(s)
    ensures SortedBy(r, key)
  {
    if |s| == 0 then []
    else
      assert s == [s[0]] + s[1..];
      Insert(s[0], Sort(s[1..], key), key)
  }

  /** The elements of `s` whose key is `v`, in their order in `s`. */
  function WithKey<T>(s: seq<T>, key: T -> real, v: real): seq<T> {
    if |s| == 0 then []
    else (if key(s[0]) == v then [s[0]] else []) + WithKey(s[1..], key, v)
  }

  lemma WithKeyCons<T>(y: T, t: seq<T>, key: T -> real, v: real)
    ensures WithKey([y] + t, key, v) == (if key(y) == v then [y] else []) + WithKey(t, key, v)
  {
    assert ([y] + t)[1..] == t;
  }

  /** Past a head with a smaller key, insertion goes on in the tail. */
  lemma InsertPast<T>(x: T, s: seq<T>, key: T -> real)
    requires |s| > 0 && key(s[0]) < key(x)
    ensures Insert(x, s, key) == [s[0]] + Insert(x, s[1..], key)
  {
  }

  /** A head with a smaller key than `x` and a key of its own keeps its place before `x`. */
  lemma WithKeyPast<T>(x: T, s: seq<T>, rest: seq<T>, key: T -> real, v: real)
    requires |s| > 0 && key(s[0]) < key(x)
    requires WithKey(rest, key, v) == (if key(x) == v then [x] else []) + WithKey(s[1..], key, v)
    ensures WithKey([s[0]] + rest, key, v) == (if key(x) == v then [x] else []) + WithKey(s, key, v)
  {
    var xs := if key(x) == v then [x] else [];
    var hs := if key(s[0]) == v then [s[0]] else [];
    WithKeyCons(s[0], rest, key, v);
    assert [s[0]] + s[1..] == s;
    WithKeyCons(s[0], s[1..], key, v);
    assert hs == [] || xs == [];
    assert hs + (xs + WithKey(s[1..], key, v)) == xs + (hs + WithKey(s[1..], key, v));
  }

  lemma {:induction false} InsertWithKey<T>(x: T, s: seq<T>, key: T -> real, v: real)
    ensures WithKey(Insert(x, s, key), key, v) == (if key(x) == v then [x] else []) + WithKey(s, key, v)
    decreases |s|
  {
    if |s| == 0 || key(x) <= key(s[0]) {
      assert Insert(x, s, key) == [x] + s;
      WithKeyCons(x, s, key, v);
    } else {
      InsertPast(x, s, key);
      InsertWithKey(x, s[1..], key, v);
      WithKeyPast(x, s, Insert(x, s[1..], key), key, v);
    }
  }

  /** Stability: among elements with the same key, the sort keeps the original order. */
  lemma {:induction false} SortStable<T>(s: seq<T>, key: T -> real, v: real)
    ensures WithKey(Sort(s, key), key, v) == WithKey(s, key, v)
    decreases |s|
  {
    if |s| > 0 {
      SortStable(s[1..], key, v);
      InsertWithKey(s[0], Sort(s[1..], key), key, v);
    }
  }
}
