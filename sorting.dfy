/** Kotlin's `sortedBy`: a stable sort on a computed key. It is modelled as an
    insertion sort that takes the elements in input order and puts each one
    after every element whose key is not larger, and is shown to be the only
    stable sort (StableSortUnique), so the choice of algorithm does not matter. */
module Sorting {

  /** Keys never decrease along `s`. */
  ghost predicate SortedBy<T>(s: seq<T>, key: T -> real)
  {
    forall p, q :: 0 <= p < q < |s| ==> key(s[p]) <= key(s[q])
  }

  /** Keys strictly increase along `s`. */
  ghost predicate StrictlySortedBy<T>(s: seq<T>, key: T -> real)
  {
    forall p, q :: 0 <= p < q < |s| ==> key(s[p]) < key(s[q])
  }

  /** The elements of `s` whose key is `v`, in their order in `s`. */
  function WithKey<T>(s: seq<T>, key: T -> real, v: real): (r: seq<T>)
    ensures |r| <= |s|
  {
    if s == [] then []
    else (if key(s[0]) == v then [s[0]] else []) + WithKey(s[1..], key, v)
  }

  /** Places `x` just before the first element whose key is larger than its own. */
  function InsertBy<T>(x: T, s: seq<T>, key: T -> real): (r: seq<T>)
    ensures multiset(r) == multiset(s) + multiset{x}
  {
    if s == [] then [x]
    else if key(x) < key(s[0]) then [x] + s
    else
      assert s == [s[0]] + s[1..];
      [s[0]] + InsertBy(x, s[1..], key)
  }

  /** Every key along `s` is at least `m`. */
  ghost predicate KeysAtLeast<T>(s: seq<T>, key: T -> real, m: real)
  {
    forall k :: 0 <= k < |s| ==> m <= key(s[k])
  }

  lemma {:induction false} InsertByAtLeast<T>(x: T, s: seq<T>, key: T -> real, m: real)
    requires KeysAtLeast(s, key, m) && m <= key(x)
    ensures KeysAtLeast(InsertBy(x, s, key), key, m)
  {
    if s != [] && key(s[0]) <= key(x) {
      InsertByAtLeast(x, s[1..], key, m);
      var r := InsertBy(x, s, key);
      assert r == [s[0]] + InsertBy(x, s[1..], key);
      forall k | 0 <= k < |r| ensures m <= key(r[k]) {
        if k > 0 {
          assert r[k] == InsertBy(x, s[1..], key)[k - 1];
        }
      }
    }
  }

  /** A sorted sequence headed by `y` whose tail keys are at least `key(y)`. */
  lemma ConsSorted<T>(y: T, rest: seq<T>, key: T -> real)
    requires SortedBy(rest, key) && KeysAtLeast(rest, key, key(y))
    ensures SortedBy([y] + rest, key)
  {
    var r := [y] + rest;
    forall p, q | 0 <= p < q < |r| ensures key(r[p]) <= key(r[q]) {
      assert r[q] == rest[q - 1];
      if p > 0 {
        assert r[p] == rest[p - 1];
      }
    }
  }

  /** Inserting into a sorted sequence keeps it sorted. */
  lemma {:induction false} InsertBySorted<T>(x: T, s: seq<T>, key: T -> real)
    requires SortedBy(s, key)
    ensures SortedBy(InsertBy(x, s, key), key)
  {
    if s == [] {
    } else if key(x) < key(s[0]) {
      assert KeysAtLeast(s, key, key(x));
      ConsSorted(x, s, key);
    } else {
      var rest := InsertBy(x, s[1..], key);
      SortedTail(s, key);
      InsertBySorted(x, s[1..], key);
      assert KeysAtLeast(s[1..], key, key(s[0]));
      InsertByAtLeast(x, s[1..], key, key(s[0]));
      ConsSorted(s[0], rest, key);
    }
  }

  /** `sortedBy`: the stable sort of `s` by `key`. */
  function SortBy<T>(s: seq<T>, key: T -> real): (r: seq<T>)
    ensures multiset(r) == multiset(s)
    ensures SortedBy(r, key)
  {
    if s == [] then []
    else
      assert s == s[..|s| - 1] + [s[|s| - 1]];
      var sorted := SortBy(s[..|s| - 1], key);
      InsertBySorted(s[|s| - 1], sorted, key);
      InsertBy(s[|s| - 1], sorted, key)
  }

  lemma {:induction false} WithKeyAppend<T>(a: seq<T>, b: seq<T>, key: T -> real, v: real)
    ensures WithKey(a + b, key, v) == WithKey(a, key, v) + WithKey(b, key, v)
  {
    if a != [] {
      var head := if key(a[0]) == v then [a[0]] else [];
      assert (a + b)[0] == a[0];
      assert (a + b)[1..] == a[1..] + b;
      WithKeyAppend(a[1..], b, key, v);
      calc {
        WithKey(a + b, key, v);
        head + WithKey(a[1..] + b, key, v);
        head + (WithKey(a[1..], key, v) + WithKey(b, key, v));
        (head + WithKey(a[1..], key, v)) + WithKey(b, key, v);
        WithKey(a, key, v) + WithKey(b, key, v);
      }
    } else {
      assert a + b == b;
    }
  }

  /** No element of `s` has key `v`. */
  lemma WithKeyNone<T>(s: seq<T>, key: T -> real, v: real)
    requires forall x :: x in s ==> key(x) != v
    ensures WithKey(s, key, v) == []
  {
  }

  /** Removing the first element of a sequence removes it from the multiset. */
  lemma MultisetTail<T>(s: seq<T>)
    requires s != []
    ensures multiset(s) == multiset{s[0]} + multiset(s[1..])
    ensures multiset(s[1..]) == multiset(s) - multiset{s[0]}
  {
    assert s == [s[0]] + s[1..];
  }

  /** Inserting `x` into a sorted sequence puts it after every element with the same key. */
  lemma {:induction false} InsertByWithKey<T>(x: T, s: seq<T>, key: T -> real, v: real)
    requires SortedBy(s, key)
    ensures WithKey(InsertBy(x, s, key), key, v)
         == WithKey(s, key, v) + (if key(x) == v then [x] else [])
  {
    if s == [] {
      WithKeySingleton(x, key, v);
    } else if key(x) < key(s[0]) {
      assert InsertBy(x, s, key) == [x] + s;
      InsertFrontWithKey(x, s, key, v);
    } else {
      assert InsertBy(x, s, key) == [s[0]] + InsertBy(x, s[1..], key);
      SortedTail(s, key);
      InsertByWithKey(x, s[1..], key, v);
      ConsWithKey(s[0], InsertBy(x, s[1..], key), s[1..], key, v, if key(x) == v then [x] else []);
      assert [s[0]] + s[1..] == s;
    }
  }

  lemma InsertFrontWithKey<T>(x: T, s: seq<T>, key: T -> real, v: real)
    requires s != [] && SortedBy(s, key) && key(x) < key(s[0])
    ensures WithKey([x] + s, key, v) == WithKey(s, key, v) + (if key(x) == v then [x] else [])
  {
    WithKeyAppend([x], s, key, v);
    WithKeySingleton(x, key, v);
    if key(x) == v {
      forall y | y in s ensures key(y) != v {
        var q :| 0 <= q < |s| && s[q] == y;
        assert key(s[0]) <= key(s[q]);
      }
      WithKeyNone(s, key, v);
    }
  }

  /** Putting the same element in front of two sequences keeps the relation
      between their groups of key `v`. */
  lemma ConsWithKey<T>(y: T, a: seq<T>, b: seq<T>, key: T -> real, v: real, tail: seq<T>)
    requires WithKey(a, key, v) == WithKey(b, key, v) + tail
    ensures WithKey([y] + a, key, v) == WithKey([y] + b, key, v) + tail
  {
    WithKeyAppend([y], a, key, v);
    WithKeyAppend([y], b, key, v);
  }

  lemma SortByUnfold<T>(s: seq<T>, key: T -> real)
    requires s != []
    ensures SortBy(s, key) == InsertBy(s[|s| - 1], SortBy(s[..|s| - 1], key), key)
  {
  }

  lemma WithKeySingleton<T>(x: T, key: T -> real, v: real)
    ensures WithKey([x], key, v) == if key(x) == v then [x] else []
  {
    assert [x][1..] == [];
  }

  /** Stability: among elements with equal keys, the input order is kept. */
  lemma {:induction false} SortByIsStable<T>(s: seq<T>, key: T -> real, v: real)
    ensures WithKey(SortBy(s, key), key, v) == WithKey(s, key, v)
    decreases |s|
  {
    if s != [] {
      var init, last := s[..|s| - 1], s[|s| - 1];
      var sorted := SortBy(init, key);
      var tail := if key(last) == v then [last] else [];
      assert WithKey(SortBy(s, key), key, v) == WithKey(sorted, key, v) + tail by {
        SortByUnfold(s, key);
        InsertByWithKey(last, sorted, key, v);
      }
      assert WithKey(s, key, v) == WithKey(init, key, v) + tail by {
        WithKeySingleton(last, key, v);
        WithKeyAppend(init, [last], key, v);
        assert init + [last] == s;
      }
      SortByIsStable(init, key, v);
    }
  }

  /** A sorted, stable permutation is unique: any two sequences that are sorted
      by `key` and agree on the order of each group of equal keys are equal. */
  lemma {:induction false} StableSortUnique<T>(a: seq<T>, b: seq<T>, key: T -> real)
    requires SortedBy(a, key) && SortedBy(b, key)
    requires multiset(a) == multiset(b)
    requires forall v :: WithKey(a, key, v) == WithKey(b, key, v)
    ensures a == b
    decreases |a|
  {
    if a != [] {
      assert |b| == |a| by { assert |multiset(a)| == |multiset(b)|; }
      assert a[0] in multiset(b) && b[0] in multiset(a);
      var ka := key(a[0]);
      assert key(b[0]) == ka by {
        var qa :| 0 <= qa < |a| && a[qa] == b[0];
        var qb :| 0 <= qb < |b| && b[qb] == a[0];
        assert key(a[0]) <= key(a[qa]);
        assert key(b[0]) <= key(b[qb]);
      }
      var wa, wb := WithKey(a, key, ka), WithKey(b, key, ka);
      assert wa == [a[0]] + WithKey(a[1..], key, ka);
      assert wb == [b[0]] + WithKey(b[1..], key, ka);
      assert wa == wb;
      assert a[0] == wa[0] == wb[0] == b[0];
      forall v ensures WithKey(a[1..], key, v) == WithKey(b[1..], key, v) {
        var h := if key(a[0]) == v then [a[0]] else [];
        assert WithKey(a, key, v) == h + WithKey(a[1..], key, v);
        assert WithKey(b, key, v) == h + WithKey(b[1..], key, v);
        assert WithKey(a, key, v) == WithKey(b, key, v);
        assert WithKey(a[1..], key, v) == WithKey(a, key, v)[|h|..];
        assert WithKey(b[1..], key, v) == WithKey(b, key, v)[|h|..];
      }
      MultisetTail(a);
      MultisetTail(b);
      StableSortUnique(a[1..], b[1..], key);
    }
  }

  /** Whatever stable sort the host library uses, its result is `SortBy`. */
  lemma SortByCharacterized<T>(s: seq<T>, r: seq<T>, key: T -> real)
    requires SortedBy(r, key) && multiset(r) == multiset(s)
    requires forall v :: WithKey(r, key, v) == WithKey(s, key, v)
    ensures r == SortBy(s, key)
  {
    forall v ensures WithKey(r, key, v) == WithKey(SortBy(s, key), key, v) {
      SortByIsStable(s, key, v);
    }
    StableSortUnique(r, SortBy(s, key), key);
  }

  /** A sequence that is already sorted is left as it is. */
  lemma SortByOfSorted<T>(s: seq<T>, key: T -> real)
    requires SortedBy(s, key)
    ensures SortBy(s, key) == s
  {
    SortByCharacterized(s, s, key);
  }

  /** When the target order has strictly increasing keys, being a sorted
      permutation of it already forces equality (stability plays no part). */
  lemma {:induction false} StrictlySortedUnique<T>(a: seq<T>, b: seq<T>, key: T -> real)
    requires StrictlySortedBy(a, key) && SortedBy(b, key)
    requires multiset(a) == multiset(b)
    ensures a == b
    decreases |a|
  {
    if a != [] {
      StrictHeadsAgree(a, b, key);
      MultisetTail(a);
      MultisetTail(b);
      SortedTail(b, key);
      StrictlySortedUnique(a[1..], b[1..], key);
    }
  }

  /** The least element of a strictly sorted sequence heads every sorted
      permutation of it. */
  lemma StrictHeadsAgree<T>(a: seq<T>, b: seq<T>, key: T -> real)
    requires a != [] && StrictlySortedBy(a, key) && SortedBy(b, key)
    requires multiset(a) == multiset(b)
    ensures b != [] && b[0] == a[0]
  {
    assert |b| == |a| by { assert |multiset(a)| == |multiset(b)|; }
    assert a[0] in multiset(b) && b[0] in multiset(a);
    var qa :| 0 <= qa < |a| && a[qa] == b[0];
    var qb :| 0 <= qb < |b| && b[qb] == a[0];
    assert key(b[0]) <= key(a[0]);
  }

  lemma SortedTail<T>(s: seq<T>, key: T -> real)
    requires s != [] && SortedBy(s, key)
    ensures SortedBy(s[1..], key)
  {
  }
}
