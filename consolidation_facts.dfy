/** What the promise of `transitiveMerge` (IsConsolidation) implies: its
    blocks are exactly the connected components of the input, so the result,
    as a set, depends neither on the algorithm nor on the input order. */
module ConsolidationFacts {
  import opened Collections
  import opened Consolidation

  /** Two blocks sharing an element are the same block. */
  lemma SharedElementSameBlock<V>(merged: seq<set<V>>, k: int, l: int, y: V)
    requires PairwiseDisjoint(merged)
    requires 0 <= k < |merged| && 0 <= l < |merged| && y in merged[k] && y in merged[l]
    ensures k == l
  {
    assert y in merged[k] * merged[l];
  }

  /** An input set that shares an element with a block lies inside it. */
  lemma InputInBlock<V>(sets: seq<set<V>>, merged: seq<set<V>>, m: int, k: int, y: V)
    requires PairwiseDisjoint(merged) && Covers(sets, merged)
    requires 0 <= m < |sets| && 0 <= k < |merged| && y in sets[m] && y in merged[k]
    ensures sets[m] <= merged[k]
  {
    var k' :| 0 <= k' < |merged| && sets[m] <= merged[k'];
    SharedElementSameBlock(merged, k, k', y);
  }

  /** Every set along a path that starts inside a block stays inside it. */
  lemma {:induction false} PathInBlock<V>(sets: seq<set<V>>, merged: seq<set<V>>, path: seq<int>, k: int, y: V)
    requires PairwiseDisjoint(merged) && Covers(sets, merged)
    requires IsPath(sets, path) && 0 <= k < |merged|
    requires y in sets[path[0]] && y in merged[k]
    ensures sets[path[|path| - 1]] <= merged[k]
    decreases |path|
  {
    if |path| == 1 {
      InputInBlock(sets, merged, path[0], k, y);
    } else {
      var prefix := path[..|path| - 1];
      assert IsPath(sets, prefix) by {
        forall t | 0 <= t < |prefix| - 1 ensures Meets(sets, prefix[t], prefix[t + 1]) {
          assert prefix[t] == path[t] && prefix[t + 1] == path[t + 1];
        }
      }
      PathInBlock(sets, merged, prefix, k, y);
      var p, q := path[|path| - 2], path[|path| - 1];
      assert Meets(sets, p, q);
      var z :| z in sets[p] && z in sets[q];
      InputInBlock(sets, merged, q, k, z);
    }
  }

  /** The blocks are the connected components: an element of a block shares
      it with exactly the elements it is linked to. */
  lemma SameBlockIffLinked<V>(sets: seq<set<V>>, merged: seq<set<V>>, k: int, a: V, b: V)
    requires PairwiseDisjoint(merged) && Covers(sets, merged) && BlocksConnected(sets, merged)
    requires 0 <= k < |merged| && a in merged[k]
    ensures b in merged[k] <==> Linked(sets, a, b)
  {
    if Linked(sets, a, b) {
      var path :| IsPath(sets, path) && a in sets[path[0]] && b in sets[path[|path| - 1]];
      PathInBlock(sets, merged, path, k, a);
    }
  }

  /** Each element of a block comes from an input set lying inside that block. */
  lemma InputAround<V>(sets: seq<set<V>>, merged: seq<set<V>>, k: int, x: V) returns (m: int)
    requires PairwiseDisjoint(merged) && Covers(sets, merged) && MadeOfInputs(sets, merged)
    requires 0 <= k < |merged| && x in merged[k]
    ensures 0 <= m < |sets| && x in sets[m] && sets[m] <= merged[k]
  {
    assert x in UnionOf(sets);
    m :| 0 <= m < |sets| && x in sets[m];
    InputInBlock(sets, merged, m, k, x);
  }

  /** Every non-empty input set lies inside exactly one block. */
  lemma InputInOneBlock<V>(sets: seq<set<V>>, merged: seq<set<V>>, m: int)
    requires IsConsolidation(sets, merged)
    requires 0 <= m < |sets| && sets[m] != {}
    ensures exists k :: 0 <= k < |merged| && sets[m] <= merged[k]
    ensures forall k, l :: 0 <= k < |merged| && 0 <= l < |merged| && sets[m] <= merged[k] && sets[m] <= merged[l] ==> k == l
  {
    assert InsideSomeBlock(sets[m], merged);
    var y :| y in sets[m];
    forall k, l | 0 <= k < |merged| && 0 <= l < |merged| && sets[m] <= merged[k] && sets[m] <= merged[l]
      ensures k == l
    {
      SharedElementSameBlock(merged, k, l, y);
    }
  }

  /** Every block is the union of the input sets lying inside it. */
  lemma BlockIsUnionOfInputs<V>(sets: seq<set<V>>, merged: seq<set<V>>, k: int)
    requires IsConsolidation(sets, merged)
    requires 0 <= k < |merged|
    ensures merged[k] == (set m, x | 0 <= m < |sets| && sets[m] <= merged[k] && x in sets[m] :: x)
  {
    var inside := set m, x | 0 <= m < |sets| && sets[m] <= merged[k] && x in sets[m] :: x;
    forall x | x in merged[k] ensures x in inside {
      var m := InputAround(sets, merged, k, x);
    }
  }

  /** Merging neither loses nor invents elements. */
  lemma ConsolidationUnion<V>(sets: seq<set<V>>, merged: seq<set<V>>)
    requires Covers(sets, merged) && MadeOfInputs(sets, merged)
    ensures UnionOf(merged) == UnionOf(sets)
  {
    forall x | x in UnionOf(merged) ensures x in UnionOf(sets) {
      var k :| 0 <= k < |merged| && x in merged[k];
    }
    forall x | x in UnionOf(sets) ensures x in UnionOf(merged) {
      var m :| 0 <= m < |sets| && x in sets[m];
      var k :| 0 <= k < |merged| && sets[m] <= merged[k];
    }
  }

  /** Each element of the input lies in exactly one block. */
  lemma ExactlyOneBlock<V>(sets: seq<set<V>>, merged: seq<set<V>>, x: V)
    requires IsConsolidation(sets, merged)
    requires x in UnionOf(sets)
    ensures exists k :: 0 <= k < |merged| && x in merged[k]
    ensures forall k, l :: 0 <= k < |merged| && 0 <= l < |merged| && x in merged[k] && x in merged[l] ==> k == l
  {
    ConsolidationUnion(sets, merged);
    forall k, l | 0 <= k < |merged| && 0 <= l < |merged| && x in merged[k] && x in merged[l]
      ensures k == l
    {
      SharedElementSameBlock(merged, k, l, x);
    }
  }

  /** Any two sequences meeting the promise for the same input hold the same
      blocks: the result, as a set, is determined by the input. */
  lemma ConsolidationUnique<V>(sets: seq<set<V>>, m1: seq<set<V>>, m2: seq<set<V>>)
    requires IsConsolidation(sets, m1) && IsConsolidation(sets, m2)
    ensures Members(m1) == Members(m2)
  {
    BlocksShared(sets, m1, m2);
    BlocksShared(sets, m2, m1);
  }

  lemma BlocksShared<V>(sets: seq<set<V>>, m1: seq<set<V>>, m2: seq<set<V>>)
    requires PairwiseDisjoint(m1) && Covers(sets, m1) && MadeOfInputs(sets, m1) && BlocksConnected(sets, m1)
    requires PairwiseDisjoint(m2) && Covers(sets, m2) && BlocksConnected(sets, m2)
    requires {} in m1 ==> {} in m2
    ensures forall b :: b in m1 ==> b in m2
  {
    forall b | b in m1 ensures b in m2 {
      if b != {} {
        var k1 :| 0 <= k1 < |m1| && m1[k1] == b;
        var a :| a in b;
        var m := InputAround(sets, m1, k1, a);
        var k2 :| 0 <= k2 < |m2| && sets[m] <= m2[k2];
        forall x ensures x in m1[k1] <==> x in m2[k2] {
          SameBlockIffLinked(sets, m1, k1, a, x);
          SameBlockIffLinked(sets, m2, k2, a, x);
        }
        assert m1[k1] == m2[k2];
      }
    }
  }

  /** A path through one input sequence, mapped onto another holding the same sets. */
  lemma TranslatePath<V>(s1: seq<set<V>>, s2: seq<set<V>>, path: seq<int>) returns (path2: seq<int>)
    requires Members(s1) == Members(s2) && IsPath(s1, path)
    ensures IsPath(s2, path2) && |path2| == |path|
    ensures forall t :: 0 <= t < |path| ==> s2[path2[t]] == s1[path[t]]
  {
    path2 := [];
    for t := 0 to |path|
      invariant |path2| == t
      invariant forall u :: 0 <= u < t ==> 0 <= path2[u] < |s2| && s2[path2[u]] == s1[path[u]]
    {
      assert s1[path[t]] in Members(s2);
      var r :| 0 <= r < |s2| && s2[r] == s1[path[t]];
      path2 := path2 + [r];
    }
    forall t | 0 <= t < |path2| - 1 ensures Meets(s2, path2[t], path2[t + 1]) {
      assert Meets(s1, path[t], path[t + 1]);
    }
  }

  lemma ReorderCovers<V>(s1: seq<set<V>>, s2: seq<set<V>>, merged: seq<set<V>>)
    requires Members(s1) == Members(s2) && Covers(s1, merged)
    ensures Covers(s2, merged)
  {
    forall m | 0 <= m < |s2| ensures InsideSomeBlock(s2[m], merged) {
      assert s2[m] in Members(s1);
      var m1 :| 0 <= m1 < |s1| && s1[m1] == s2[m];
      var k :| 0 <= k < |merged| && s1[m1] <= merged[k];
      assert s2[m] <= merged[k];
    }
  }

  lemma ReorderMadeOfInputs<V>(s1: seq<set<V>>, s2: seq<set<V>>, merged: seq<set<V>>)
    requires Members(s1) == Members(s2) && MadeOfInputs(s1, merged)
    ensures MadeOfInputs(s2, merged)
  {
    forall k, x | 0 <= k < |merged| && x in merged[k] ensures x in UnionOf(s2) {
      var m1 :| 0 <= m1 < |s1| && x in s1[m1];
      assert s1[m1] in Members(s2);
      var m2 :| 0 <= m2 < |s2| && s2[m2] == s1[m1];
    }
  }

  lemma ReorderConnected<V>(s1: seq<set<V>>, s2: seq<set<V>>, merged: seq<set<V>>)
    requires Members(s1) == Members(s2) && BlocksConnected(s1, merged)
    ensures BlocksConnected(s2, merged)
  {
    forall k, a, b | 0 <= k < |merged| && a in merged[k] && b in merged[k]
      ensures Linked(s2, a, b)
    {
      assert Linked(s1, a, b);
      var path :| IsPath(s1, path) && a in s1[path[0]] && b in s1[path[|path| - 1]];
      var path2 := TranslatePath(s1, s2, path);
      assert a in s2[path2[0]] && b in s2[path2[|path2| - 1]];
    }
  }

  /** The promise does not depend on the order (or repetition) of the input sets. */
  lemma ConsolidationReorder<V>(s1: seq<set<V>>, s2: seq<set<V>>, merged: seq<set<V>>)
    requires Members(s1) == Members(s2)
    requires IsConsolidation(s1, merged)
    ensures IsConsolidation(s2, merged)
  {
    ReorderCovers(s1, s2, merged);
    ReorderMadeOfInputs(s1, s2, merged);
    ReorderConnected(s1, s2, merged);
    assert {} in s1 <==> {} in s2 by {
      assert {} in s1 <==> {} in Members(s1);
      assert {} in s2 <==> {} in Members(s2);
    }
  }

  /** Reordering the input of `transitiveMerge` leaves its result unchanged as a set. */
  lemma ConsolidationOrderInvariant<V>(s1: seq<set<V>>, s2: seq<set<V>>, m1: seq<set<V>>, m2: seq<set<V>>)
    requires Members(s1) == Members(s2)
    requires IsConsolidation(s1, m1) && IsConsolidation(s2, m2)
    ensures Members(m1) == Members(m2)
  {
    ConsolidationReorder(s1, s2, m1);
    ConsolidationUnique(s2, m1, m2);
  }

  /** Over pairwise disjoint inputs a path never leaves its first set. */
  lemma {:induction false} DisjointPathConstant<V>(sets: seq<set<V>>, path: seq<int>)
    requires PairwiseDisjoint(sets) && IsPath(sets, path)
    ensures path[|path| - 1] == path[0]
    decreases |path|
  {
    if |path| > 1 {
      var prefix := path[..|path| - 1];
      assert IsPath(sets, prefix) by {
        forall t | 0 <= t < |prefix| - 1 ensures Meets(sets, prefix[t], prefix[t + 1]) {
          assert prefix[t] == path[t] && prefix[t + 1] == path[t + 1];
        }
      }
      DisjointPathConstant(sets, prefix);
      var p, q := path[|path| - 2], path[|path| - 1];
      assert Meets(sets, p, q);
      assert sets[p] * sets[q] != {};
    }
  }

  /** When no two inputs meet, the blocks are the inputs themselves. */
  lemma ConsolidationOfDisjoint<V>(sets: seq<set<V>>, merged: seq<set<V>>)
    requires PairwiseDisjoint(sets) && IsConsolidation(sets, merged)
    ensures Members(merged) == Members(sets)
  {
    forall b | b in merged ensures b in sets {
      if b != {} {
        var k :| 0 <= k < |merged| && merged[k] == b;
        var a :| a in b;
        var m := InputAround(sets, merged, k, a);
        forall x | x in b ensures x in sets[m] {
          assert Linked(sets, a, x);
          var path :| IsPath(sets, path) && a in sets[path[0]] && x in sets[path[|path| - 1]];
          DisjointPathConstant(sets, path);
          SharedElementSameBlock(sets, path[0], m, a);
        }
        assert b == sets[m];
      }
    }
    forall s | s in sets ensures s in merged {
      if s != {} {
        var m :| 0 <= m < |sets| && sets[m] == s;
        var k :| 0 <= k < |merged| && sets[m] <= merged[k];
        assert merged[k] in sets;
        var m' :| 0 <= m' < |sets| && sets[m'] == merged[k];
        var a :| a in s;
        SharedElementSameBlock(sets, m, m', a);
        assert merged[k] == s;
      }
    }
  }
}
