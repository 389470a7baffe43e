/** The seven one-dimensional points 1.0, 1.1, 3.0, 12.0, 12.1, 12.2 and
    30.0 used by RankOrderClusterTest.kt, node `k` being the `k`-th point and
    the node distance the exact Euclidean distance; and the sets of the
    transitive-merge test. */
module Examples {
  import opened Collections
  import opened Sorting
  import opened Clusters
  import opened RankOrder
  import opened Consolidation
  import opened ConsolidationFacts

  /** The coordinate of each test node. */
  function Position(n: NodeId): real
  {
    if n == 0 then 1.0 else if n == 1 then 1.1 else if n == 2 then 3.0
    else if n == 3 then 12.0 else if n == 4 then 12.1 else if n == 5 then 12.2
    else 30.0
  }

  /** Euclidean distance in one dimension. */
  function Dist(a: NodeId, b: NodeId): real
  {
    if Position(a) <= Position(b) then Position(b) - Position(a) else Position(a) - Position(b)
  }

  /** `data.map { Cluster(it) }`: cluster `k` holds node `k` alone. */
  ghost predicate SevenSingletons(cs: seq<Cluster>)
  {
    |cs| == 7 && forall k :: 0 <= k < 7 ==> cs[k].elements == [k]
  }

  /** The distance key of cluster `from` at cluster `k` is the node distance. */
  lemma KeyAt(cs: seq<Cluster>, from: nat, k: nat)
    requires SevenSingletons(cs) && from < 7 && k < 7
    ensures DistanceKey(cs[from], Dist)(cs[k]) == Dist(from, k)
  {
    SingletonDistance(cs[from], cs[k], Dist, from, k);
  }

  /** The distance keys from cluster `from`, one per cluster. */
  lemma KeysFrom(cs: seq<Cluster>, from: nat)
    requires SevenSingletons(cs) && from < 7
    ensures var key := DistanceKey(cs[from], Dist);
      key(cs[0]) == Dist(from, 0) && key(cs[1]) == Dist(from, 1) && key(cs[2]) == Dist(from, 2) &&
      key(cs[3]) == Dist(from, 3) && key(cs[4]) == Dist(from, 4) && key(cs[5]) == Dist(from, 5) &&
      key(cs[6]) == Dist(from, 6)
  {
    KeyAt(cs, from, 0); KeyAt(cs, from, 1); KeyAt(cs, from, 2); KeyAt(cs, from, 3);
    KeyAt(cs, from, 4); KeyAt(cs, from, 5); KeyAt(cs, from, 6);
  }

  /** The distance keys from clusters 0, 1 and 5 rise in the order the
      tests expect. */
  lemma KeysRiseFromZero(cs: seq<Cluster>)
    requires SevenSingletons(cs)
    ensures var key := DistanceKey(cs[0], Dist);
      key(cs[0]) < key(cs[1]) < key(cs[2]) < key(cs[3]) < key(cs[4]) < key(cs[5]) < key(cs[6])
  {
    KeysFrom(cs, 0);
  }

  lemma KeysRiseFromOne(cs: seq<Cluster>)
    requires SevenSingletons(cs)
    ensures var key := DistanceKey(cs[1], Dist);
      key(cs[1]) < key(cs[0]) < key(cs[2]) < key(cs[3]) < key(cs[4]) < key(cs[5]) < key(cs[6])
  {
    KeysFrom(cs, 1);
  }

  lemma KeysRiseFromFive(cs: seq<Cluster>)
    requires SevenSingletons(cs)
    ensures var key := DistanceKey(cs[5], Dist);
      key(cs[5]) < key(cs[4]) < key(cs[3]) < key(cs[2]) < key(cs[1]) < key(cs[0]) < key(cs[6])
  {
    KeysFrom(cs, 5);
  }

  /** The seven clusters are distinct objects. */
  lemma SevenDistinct(cs: seq<Cluster>)
    requires SevenSingletons(cs)
    ensures Distinct(cs)
  {
    forall p, q | 0 <= p < q < 7 ensures cs[p] != cs[q] {
      assert cs[p].elements[0] != cs[q].elements[0];
    }
  }

  /** Keys that rise from each entry to the next rise throughout. */
  lemma {:induction false} ChainSorted<T>(r: seq<T>, key: T -> real)
    requires forall t :: 0 <= t < |r| - 1 ==> key(r[t]) < key(r[t + 1])
    ensures StrictlySortedBy(r, key)
  {
    if |r| > 1 {
      ChainSorted(r[1..], key);
      forall q | 1 <= q < |r| ensures key(r[0]) < key(r[q]) {
        assert key(r[0]) < key(r[1]);
        if q > 1 {
          assert key(r[1..][0]) < key(r[1..][q - 1]);
        }
      }
      forall p, q | 0 <= p < q < |r| ensures key(r[p]) < key(r[q]) {
        if p > 0 {
          assert key(r[1..][p - 1]) < key(r[1..][q - 1]);
        }
      }
    }
  }

  /** A rearrangement of `s` whose seven keys strictly rise is `s` sorted. */
  lemma SortedAs<T>(s: seq<T>, r: seq<T>, key: T -> real)
    requires |r| == 7 && multiset(r) == multiset(s)
    requires key(r[0]) < key(r[1]) && key(r[1]) < key(r[2]) && key(r[2]) < key(r[3])
    requires key(r[3]) < key(r[4]) && key(r[4]) < key(r[5]) && key(r[5]) < key(r[6])
    ensures SortBy(s, key) == r
  {
    ChainSorted(r, key);
    StrictlySortedUnique(r, SortBy(s, key), key);
  }

  /** Ordered from cluster 0, the clusters keep their input order. */
  lemma OrderFromZero(cs: seq<Cluster>)
    requires SevenSingletons(cs)
    ensures ClusterOrderedList(cs[0], cs, Dist) == cs
  {
    KeysRiseFromZero(cs);
    SortedAs(cs, cs, DistanceKey(cs[0], Dist));
  }

  /** Ordered from cluster 1, clusters 1 and 0 swap places. */
  lemma OrderFromOne(cs: seq<Cluster>)
    requires SevenSingletons(cs)
    ensures ClusterOrderedList(cs[1], cs, Dist) == [cs[1], cs[0], cs[2], cs[3], cs[4], cs[5], cs[6]]
  {
    var r := [cs[1], cs[0], cs[2], cs[3], cs[4], cs[5], cs[6]];
    KeysRiseFromOne(cs);
    SwapFirstTwo(cs, r);
    SortedAs(cs, r, DistanceKey(cs[1], Dist));
  }

  /** Ordered from cluster 5, the clusters run 5, 4, 3, 2, 1, 0, 6. */
  lemma OrderFromFive(cs: seq<Cluster>)
    requires SevenSingletons(cs)
    ensures ClusterOrderedList(cs[5], cs, Dist) == [cs[5], cs[4], cs[3], cs[2], cs[1], cs[0], cs[6]]
  {
    var r := [cs[5], cs[4], cs[3], cs[2], cs[1], cs[0], cs[6]];
    KeysRiseFromFive(cs);
    ReverseFirstSix(cs, r);
    SortedAs(cs, r, DistanceKey(cs[5], Dist));
  }

  /** Exchanging two entries keeps the multiset of a sequence. */
  lemma ExchangePerm<T>(s: seq<T>, i: int, j: int)
    requires 0 <= i < |s| && 0 <= j < |s|
    ensures multiset(s[i := s[j]][j := s[i]]) == multiset(s)
  {
  }

  lemma SwapFirstTwo<T>(s: seq<T>, r: seq<T>)
    requires |s| == 7 && r == [s[1], s[0], s[2], s[3], s[4], s[5], s[6]]
    ensures multiset(r) == multiset(s)
  {
    assert s[0 := s[1]][1 := s[0]] == r;
    ExchangePerm(s, 0, 1);
  }

  lemma ReverseFirstSix<T>(s: seq<T>, r: seq<T>)
    requires |s| == 7 && r == [s[5], s[4], s[3], s[2], s[1], s[0], s[6]]
    ensures multiset(r) == multiset(s)
  {
    var s1 := s[0 := s[5]][5 := s[0]];
    var s2 := s1[1 := s1[4]][4 := s1[1]];
    var s3 := s2[2 := s2[3]][3 := s2[2]];
    assert s3 == r;
    assert multiset(s1) == multiset(s) by { ExchangePerm(s, 0, 5); }
    assert multiset(s2) == multiset(s1) by { ExchangePerm(s1, 1, 4); }
    assert multiset(s3) == multiset(s2) by { ExchangePerm(s2, 2, 3); }
  }

  /** `indexOf` finds the first occurrence. */
  lemma IndexOfAt<T>(s: seq<T>, p: int, x: T)
    requires 0 <= p < |s| && s[p] == x
    requires forall q :: 0 <= q < p ==> s[q] != x
    ensures IndexOf(s, x) == p
  {
    assert x in s;
  }

  /** Ranked by cluster 1, cluster 0 comes second; it is the only cluster
      that cluster 0 ranks before cluster 1. */
  lemma RankFromOne<T>(o0: seq<T>, o1: seq<T>)
    requires |o0| == 7 && Distinct(o0)
    requires o1 == [o0[1], o0[0], o0[2], o0[3], o0[4], o0[5], o0[6]]
    ensures AsymmetricRank(o0[1], o0, o1) == 1
  {
    IndexOfAt(o0, 1, o0[1]);
    IndexOfAt(o1, 1, o0[0]);
    assert RankSum(o0, o1, 1) == RankSum(o0, o1, 0) + IndexOf(o1, o0[0]);
  }

  /** Cluster 0 ranks clusters 0 to 4 before cluster 5, which ranks them
      5, 4, 3, 2 and 1 places in. */
  lemma RankFromFive<T>(o0: seq<T>, o5: seq<T>)
    requires |o0| == 7 && Distinct(o0)
    requires o5 == [o0[5], o0[4], o0[3], o0[2], o0[1], o0[0], o0[6]]
    ensures IndexOf(o0, o0[5]) == 5
    ensures AsymmetricRank(o0[5], o0, o5) == 15
  {
    IndexOfAt(o0, 5, o0[5]);
    ReversedDistinct(o0, o5);
    assert RankSum(o0, o5, 1) == 5 by { IndexOfAt(o5, 5, o5[5]); }
    assert RankSum(o0, o5, 2) == 9 by { IndexOfAt(o5, 4, o5[4]); }
    assert RankSum(o0, o5, 3) == 12 by { IndexOfAt(o5, 3, o5[3]); }
    assert RankSum(o0, o5, 4) == 14 by { IndexOfAt(o5, 2, o5[2]); }
    assert RankSum(o0, o5, 5) == 15 by { IndexOfAt(o5, 1, o5[1]); }
  }

  lemma ReversedDistinct<T>(o0: seq<T>, o5: seq<T>)
    requires |o0| == 7 && Distinct(o0)
    requires o5 == [o0[5], o0[4], o0[3], o0[2], o0[1], o0[0], o0[6]]
    ensures Distinct(o5)
  {
    var m := [5, 4, 3, 2, 1, 0, 6];
    forall p, q | 0 <= p < q < 7 ensures o5[p] != o5[q] {
      assert o5[p] == o0[m[p]] && o5[q] == o0[m[q]];
    }
  }

  /** Cluster 5 ranks clusters 5, 4, 3, 2 and 1 before cluster 0, which
      ranks them 5, 4, 3, 2 and 1 places in. */
  lemma RankToFive<T>(o0: seq<T>, o5: seq<T>)
    requires |o0| == 7 && Distinct(o0)
    requires o5 == [o0[5], o0[4], o0[3], o0[2], o0[1], o0[0], o0[6]]
    ensures IndexOf(o5, o0[0]) == 5
    ensures AsymmetricRank(o0[0], o5, o0) == 15
  {
    IndexOfAt(o5, 5, o0[0]);
    assert RankSum(o5, o0, 1) == 5 by { IndexOfAt(o0, 5, o0[5]); }
    assert RankSum(o5, o0, 2) == 9 by { IndexOfAt(o0, 4, o0[4]); }
    assert RankSum(o5, o0, 3) == 12 by { IndexOfAt(o0, 3, o0[3]); }
    assert RankSum(o5, o0, 4) == 14 by { IndexOfAt(o0, 2, o0[2]); }
    assert RankSum(o5, o0, 5) == 15 by { IndexOfAt(o0, 1, o0[1]); }
  }

  /** The asymmetric rank-order distances the tests expect: 1 from cluster 0
      to cluster 1, and 15 from cluster 0 to cluster 5. */
  lemma AsymmetricExamples(cs: seq<Cluster>)
    requires SevenSingletons(cs)
    ensures AsymmetricRank(cs[1], ClusterOrderedList(cs[0], cs, Dist), ClusterOrderedList(cs[1], cs, Dist)) == 1
    ensures AsymmetricRank(cs[5], ClusterOrderedList(cs[0], cs, Dist), ClusterOrderedList(cs[5], cs, Dist)) == 15
  {
    OrderFromZero(cs);
    OrderFromOne(cs);
    OrderFromFive(cs);
    SevenDistinct(cs);
    RankFromOne(cs, ClusterOrderedList(cs[1], cs, Dist));
    RankFromFive(cs, ClusterOrderedList(cs[5], cs, Dist));
  }

  /** The rank-order distance between clusters 0 and 5 is 30 / 5 = 6. */
  lemma RankOrderExample(cs: seq<Cluster>)
    requires SevenSingletons(cs)
    ensures ClusterRankOrderDistance(cs[0], cs[5], ClusterOrderedList(cs[0], cs, Dist), ClusterOrderedList(cs[5], cs, Dist))
         == RankOrderRatio(30, 5)
  {
    OrderFromZero(cs);
    OrderFromFive(cs);
    SevenDistinct(cs);
    RankFromFive(cs, ClusterOrderedList(cs[5], cs, Dist));
    RankToFive(cs, ClusterOrderedList(cs[5], cs, Dist));
  }

  /** The input of the transitive-merge test. `{A, B}` and `{B, A}` are one
      element of the Kotlin set, so the input has five entries. */
  function MergeInput(): seq<set<char>>
  {
    [{'A', 'B'}, {'B', 'C'}, {'D', 'E'}, {'F'}, {'G'}]
  }

  /** The blocks the test expects. */
  function MergeExpected(): seq<set<char>>
  {
    [{'A', 'B', 'C'}, {'D', 'E'}, {'F'}, {'G'}]
  }

  /** Every result `transitiveMerge` promises for the test input holds
      exactly the blocks ABC, DE, F and G. */
  lemma TransitiveMergeExample(merged: seq<set<char>>)
    requires IsConsolidation(MergeInput(), merged)
    ensures Members(merged) == Members(MergeExpected())
  {
    ExpectedIsConsolidation();
    ConsolidationUnique(MergeInput(), merged, MergeExpected());
  }

  lemma ExpectedIsConsolidation()
    ensures IsConsolidation(MergeInput(), MergeExpected())
  {
    ExpectedShape();
    ExpectedCovers();
    ExpectedMadeOfInputs();
    ExpectedConnected();
  }

  lemma ExpectedShape()
    ensures Distinct(MergeExpected()) && PairwiseDisjoint(MergeExpected())
    ensures {} !in MergeExpected() && {} !in MergeInput()
  {
    var merged := MergeExpected();
    assert 'A' in merged[0] && 'D' in merged[1] && 'F' in merged[2] && 'G' in merged[3];
    var sets := MergeInput();
    assert 'A' in sets[0] && 'B' in sets[1] && 'D' in sets[2] && 'F' in sets[3] && 'G' in sets[4];
  }

  lemma ExpectedCovers()
    ensures Covers(MergeInput(), MergeExpected())
  {
    var sets, merged := MergeInput(), MergeExpected();
    assert sets[0] <= merged[0] && sets[1] <= merged[0] && sets[2] <= merged[1];
    assert sets[3] <= merged[2] && sets[4] <= merged[3];
  }

  lemma ExpectedMadeOfInputs()
    ensures MadeOfInputs(MergeInput(), MergeExpected())
  {
    var sets, merged := MergeInput(), MergeExpected();
    forall k, x | 0 <= k < |merged| && x in merged[k] ensures x in UnionOf(sets) {
      var m := if x in sets[0] then 0 else if x in sets[1] then 1 else if x in sets[2] then 2
               else if x in sets[3] then 3 else 4;
      assert x in sets[m];
    }
  }

  lemma ExpectedConnected()
    ensures BlocksConnected(MergeInput(), MergeExpected())
  {
    var sets, merged := MergeInput(), MergeExpected();
    forall k, a, b | 0 <= k < |merged| && a in merged[k] && b in merged[k] ensures Linked(sets, a, b) {
      var path := ExamplePath(sets, k, a, b);
    }
  }

  /** A path linking two elements of one expected block. */
  lemma ExamplePath(sets: seq<set<char>>, k: int, a: char, b: char) returns (path: seq<int>)
    requires sets == MergeInput() && 0 <= k < |MergeExpected()|
    requires a in MergeExpected()[k] && b in MergeExpected()[k]
    ensures IsPath(sets, path) && a in sets[path[0]] && b in sets[path[|path| - 1]]
  {
    var ia := if k == 0 then (if a == 'C' then 1 else 0) else k + 1;
    var ib := if k == 0 then (if b == 'C' then 1 else 0) else k + 1;
    if ia == ib {
      path := [ia];
    } else {
      path := [ia, ib];
      assert 'B' in sets[ia] * sets[ib];
    }
  }
}
