/** Kotlin's `mutableSetOf()` is a LinkedHashSet: it keeps insertion order and
    holds each element once. It is modelled as a duplicate-free sequence. */
module Collections {

  /** No element occurs twice in `s`. */
  ghost predicate Distinct<T>(s: seq<T>)
  {
    forall p, q :: 0 <= p < q < |s| ==> s[p] != s[q]
  }

  /** The elements of `s` as a mathematical set. */
  function Members<T>(s: seq<T>): set<T>
  {
    set x | x in s
  }

  /** `MutableSet.add`: appends `x` unless it is already present. */
  function Add<T(==)>(s: seq<T>, x: T): (r: seq<T>)
    ensures Members(r) == Members(s) + {x}
    ensures s <= r && |r| <= |s| + 1
    ensures Distinct(s) ==> Distinct(r)
  {
    if x in s then s else s + [x]
  }

  /** `MutableSet.addAll`: adds the elements of `xs` one by one, in order. */
  function AddAll<T(==)>(s: seq<T>, xs: seq<T>): (r: seq<T>)
    ensures Members(r) == Members(s) + Members(xs)
    ensures s <= r
    ensures Distinct(s) ==> Distinct(r)
    decreases |xs|
  {
    if xs == [] then s else AddAll(Add(s, xs[0]), xs[1..])
  }

  /** When none of `xs` is present yet and `xs` repeats nothing, `addAll`
      appends `xs` as it is, in its order. */
  lemma {:induction false} AddAllAppends<T>(s: seq<T>, xs: seq<T>)
    requires Distinct(s + xs)
    ensures AddAll(s, xs) == s + xs
    decreases |xs|
  {
    if xs != [] {
      assert (s + xs)[|s|] == xs[0];
      forall p | 0 <= p < |s| ensures s[p] != xs[0] {
        assert (s + xs)[p] == s[p];
      }
      assert (s + [xs[0]]) + xs[1..] == s + xs;
      AddAllAppends(s + [xs[0]], xs[1..]);
    }
  }

  /** A sequence has at least as many positions as distinct elements, and
      exactly as many when no element repeats. */
  lemma {:induction false} MembersCard<T>(s: seq<T>)
    ensures |Members(s)| <= |s|
    ensures Distinct(s) ==> |Members(s)| == |s|
  {
    if s != [] {
      var init := s[..|s| - 1];
      MembersCard(init);
      assert Members(s) == Members(init) + {s[|s| - 1]} by {
        assert s == init + [s[|s| - 1]];
      }
      if Distinct(s) {
        assert Distinct(init);
        assert s[|s| - 1] !in Members(init);
      }
    }
  }

  /** Dropping a position whose element occurs elsewhere keeps the members. */
  lemma DropRepeat<T>(s: seq<T>, p: int, q: int)
    requires 0 <= p < |s| && 0 <= q < |s| && p != q && s[p] == s[q]
    ensures Members(s[..q] + s[q + 1..]) == Members(s)
  {
    var r := s[..q] + s[q + 1..];
    forall x | x in s ensures x in r {
      var k :| 0 <= k < |s| && s[k] == x;
      var k' := if k == q then p else k;
      assert s[k'] == x;
      if k' < q { assert r[k'] == x; } else { assert r[k' - 1] == x; }
    }
  }

  /** A sequence with as many distinct elements as positions repeats nothing. */
  lemma FullMembersDistinct<T>(s: seq<T>)
    requires |Members(s)| == |s|
    ensures Distinct(s)
  {
    forall p, q | 0 <= p < q < |s| ensures s[p] != s[q] {
      if s[p] == s[q] {
        DropRepeat(s, p, q);
        MembersCard(s[..q] + s[q + 1..]);
      }
    }
  }

  /** The integers from 0 up to, not including, `n`. */
  function Below(n: nat): (r: set<int>)
    ensures forall k :: k in r <==> 0 <= k < n
    ensures |r| == n
  {
    if n == 0 then {} else Below(n - 1) + {n - 1}
  }
}
