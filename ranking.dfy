/** The rank computations of RankOrderCluster.kt: ordered neighbour lists,
    the asymmetric rank-order distance (equation 1 of the rank-order
    clustering paper) and its symmetric combination. Order lists hold cluster
    references; `indexOf` compares them by identity, which is `==` on `T`. */
module RankOrder {
  import opened Collections
  import opened Sorting
  import opened Clusters

  /** The sort key of `clusterOrderedList`: distance to `cluster`. */
  function DistanceKey(cluster: Cluster, dist: (NodeId, NodeId) -> real): Cluster -> real
  {
    (c: Cluster) => cluster.Distance(c, dist)
  }

  /** `clusterOrderedList`: `clusters` rearranged by non-decreasing distance
      to `cluster`, clusters at equal distance keeping their order
      (`sortedBy` is stable). */
  function ClusterOrderedList(cluster: Cluster, clusters: seq<Cluster>, dist: (NodeId, NodeId) -> real): (r: seq<Cluster>)
    ensures multiset(r) == multiset(clusters)
    ensures SortedBy(r, DistanceKey(cluster, dist))
    ensures forall v :: WithKey(r, DistanceKey(cluster, dist), v) == WithKey(clusters, DistanceKey(cluster, dist), v)
  {
    var key := DistanceKey(cluster, dist);
    assert forall v :: WithKey(SortBy(clusters, key), key, v) == WithKey(clusters, key, v) by {
      forall v ensures WithKey(SortBy(clusters, key), key, v) == WithKey(clusters, key, v) {
        SortByIsStable(clusters, key, v);
      }
    }
    SortBy(clusters, key)
  }

  /** `List.indexOf`: the first position of `x` in `s`, or -1 when absent. */
  function IndexOf<T(==)>(s: seq<T>, x: T): (r: int)
    ensures -1 <= r < |s|
    ensures r == -1 <==> x !in s
    ensures r >= 0 ==> s[r] == x && x !in s[..r]
  {
    if s == [] then -1
    else if s[0] == x then 0
    else
      var k := IndexOf(s[1..], x);
      assert s[1..][..k + 1] == s[1..k + 2] by {
        if k >= 0 { assert s[1..][..k + 1] == s[1..][..k + 1]; }
      }
      if k == -1 then -1
      else
        assert s[..k + 1] == [s[0]] + s[1..][..k];
        k + 1
  }

  /** The sum, over the first `n` positions `p` of `order_i`, of the position
      of `order_i[p]` in `order_j`. */
  function RankSum<T(==)>(order_i: seq<T>, order_j: seq<T>, n: nat): int
    requires n <= |order_i|
  {
    if n == 0 then 0
    else RankSum(order_i, order_j, n - 1) + IndexOf(order_j, order_i[n - 1])
  }

  /** Equation 1 as the source evaluates it: the positions in `order_j` of the
      clusters that `order_i` ranks before `cluster_j` (none when `cluster_j`
      is absent from `order_i`). */
  function AsymmetricRank<T(==)>(cluster_j: T, order_i: seq<T>, order_j: seq<T>): int
  {
    var stop := IndexOf(order_i, cluster_j);
    RankSum(order_i, order_j, if stop < 0 then 0 else stop)
  }

  /** `asymmetricRankOrderDistance`: the accumulator loop over
      `0 until stopIndex`. */
  method AsymmetricRankOrderDistance<T(==)>(cluster_j: T, order_i: seq<T>, order_j: seq<T>) returns (accumulator: int)
    ensures accumulator == AsymmetricRank(cluster_j, order_i, order_j)
  {
    var stopIndex := IndexOf(order_i, cluster_j);
    accumulator := 0;
    var i := 0;
    while i < stopIndex
      invariant 0 <= i <= |order_i|
      invariant stopIndex >= 0 ==> i <= stopIndex
      invariant stopIndex < 0 ==> i == 0
      invariant accumulator == RankSum(order_i, order_j, i)
    {
      var index := IndexOf(order_j, order_i[i]);
      accumulator := accumulator + index;
      i := i + 1;
    }
  }

  /** The asymmetric rank is 0 when `cluster_j` heads `order_i` or is absent. */
  lemma AsymmetricRankZero<T>(cluster_j: T, order_i: seq<T>, order_j: seq<T>)
    requires cluster_j !in order_i || order_i[0] == cluster_j
    ensures AsymmetricRank(cluster_j, order_i, order_j) == 0
  {
  }

  /** The loop may stop before `stopIndex`: when `cluster_j` heads its own
      order list, including its position would add 0. */
  lemma AsymmetricRankSkipsStop<T>(cluster_j: T, order_i: seq<T>, order_j: seq<T>)
    requires cluster_j in order_i && order_j != [] && order_j[0] == cluster_j
    ensures AsymmetricRank(cluster_j, order_i, order_j)
         == RankSum(order_i, order_j, IndexOf(order_i, cluster_j) + 1)
  {
  }

  /** Bounds on a rank sum when every cluster counted appears in `order_j`. */
  lemma {:induction false} RankSumBounds<T>(order_i: seq<T>, order_j: seq<T>, n: nat)
    requires n <= |order_i|
    requires forall p :: 0 <= p < n ==> order_i[p] in order_j
    ensures 0 <= RankSum(order_i, order_j, n) <= n * (|order_j| - 1)
  {
    if n > 0 {
      var m := |order_j| - 1;
      RankSumBounds(order_i, order_j, n - 1);
      assert order_i[n - 1] in order_j;
      assert 0 <= IndexOf(order_j, order_i[n - 1]) <= m;
      assert (n - 1) * m + m == n * m;
    }
  }

  /** When both lists order the same clusters, the asymmetric rank is at least
      0 and at most (stop) * (size - 1) where stop is the rank of `cluster_j`. */
  lemma AsymmetricRankBounds<T>(cluster_j: T, order_i: seq<T>, order_j: seq<T>)
    requires cluster_j in order_i
    requires forall c :: c in order_i ==> c in order_j
    ensures 0 <= AsymmetricRank(cluster_j, order_i, order_j)
               <= IndexOf(order_i, cluster_j) * (|order_j| - 1)
  {
    RankSumBounds(order_i, order_j, IndexOf(order_i, cluster_j));
  }

  /** `clusterRankOrderDistance` before the final division: the integer
      numerator and denominator. A denominator of 0 (one cluster heads the
      other's list) or -1 (one cluster missing) is kept as it is. */
  datatype RankOrderRatio = RankOrderRatio(numerator: int, denominator: int)

  /** `clusterRankOrderDistance` as a ratio. The denominator is the smaller
      of the two mutual ranks; when each cluster is in the other's list and
      the lists hold the same clusters, the numerator is at least 0 and at most
      each rank times the length of the other list, less one. */
  function ClusterRankOrderDistance<T(==)>(cluster_i: T, cluster_j: T, order_i: seq<T>, order_j: seq<T>): (r: RankOrderRatio)
    ensures r.denominator <= IndexOf(order_i, cluster_j) && r.denominator <= IndexOf(order_j, cluster_i)
    ensures r.denominator == IndexOf(order_i, cluster_j) || r.denominator == IndexOf(order_j, cluster_i)
    ensures cluster_j in order_i && cluster_i in order_j && multiset(order_i) == multiset(order_j) ==>
              0 <= r.numerator <= IndexOf(order_i, cluster_j) * (|order_j| - 1) + IndexOf(order_j, cluster_i) * (|order_i| - 1)
  {
    assert cluster_j in order_i && cluster_i in order_j && multiset(order_i) == multiset(order_j) ==>
             0 <= AsymmetricRank(cluster_j, order_i, order_j) + AsymmetricRank(cluster_i, order_j, order_i)
               <= IndexOf(order_i, cluster_j) * (|order_j| - 1) + IndexOf(order_j, cluster_i) * (|order_i| - 1) by {
      if cluster_j in order_i && cluster_i in order_j && multiset(order_i) == multiset(order_j) {
        SameMembers(order_i, order_j);
        SameMembers(order_j, order_i);
        AsymmetricRankBounds(cluster_j, order_i, order_j);
        AsymmetricRankBounds(cluster_i, order_j, order_i);
      }
    }
    var asym_ij := AsymmetricRank(cluster_j, order_i, order_j);
    var asym_ji := AsymmetricRank(cluster_i, order_j, order_i);
    var minClusterOrder := if IndexOf(order_i, cluster_j) <= IndexOf(order_j, cluster_i)
                           then IndexOf(order_i, cluster_j) else IndexOf(order_j, cluster_i);
    RankOrderRatio(asym_ij + asym_ji, minClusterOrder)
  }

  /** Swapping the roles of the two clusters gives the same ratio. */
  lemma ClusterRankOrderDistanceSymmetric<T>(cluster_i: T, cluster_j: T, order_i: seq<T>, order_j: seq<T>)
    ensures ClusterRankOrderDistance(cluster_j, cluster_i, order_j, order_i)
         == ClusterRankOrderDistance(cluster_i, cluster_j, order_i, order_j)
  {
  }

  /** The denominator is the smaller mutual rank; it is -1 exactly when one
      cluster is missing from the other's list, and 0 exactly when (both are
      present and) one heads the other's list. */
  lemma RankOrderDenominator<T>(cluster_i: T, cluster_j: T, order_i: seq<T>, order_j: seq<T>)
    ensures var d := ClusterRankOrderDistance(cluster_i, cluster_j, order_i, order_j).denominator;
      && (d == -1 <==> cluster_j !in order_i || cluster_i !in order_j)
      && (d == 0 <==> cluster_j in order_i && cluster_i in order_j
                      && (order_i[0] == cluster_j || order_j[0] == cluster_i))
      && (d > 0 ==> cluster_j in order_i[1..] && cluster_i in order_j[1..])
  {
    var d := ClusterRankOrderDistance(cluster_i, cluster_j, order_i, order_j).denominator;
    if d > 0 {
      var pi, pj := IndexOf(order_i, cluster_j), IndexOf(order_j, cluster_i);
      assert order_i[1..][pi - 1] == cluster_j;
      assert order_j[1..][pj - 1] == cluster_i;
    }
  }

  /** Lists with equal multisets hold the same clusters. */
  lemma SameMembers<T>(s: seq<T>, t: seq<T>)
    requires multiset(s) == multiset(t)
    ensures forall c :: c in s ==> c in t
  {
    forall c | c in s ensures c in t {
      assert c in multiset(s);
    }
  }

  /** Multiplying by a non-negative factor keeps an order. */
  lemma MulLe(a: int, b: int, c: int)
    requires 0 <= c && a <= b
    ensures a * c <= b * c
  {
    assert b * c - a * c == (b - a) * c;
  }

  /** Kotlin adds the ranks in 32-bit `Int`s: for order lists of at most
      32768 clusters over the same clusters, with each cluster in the other's
      list, the numerator `asym_ij + asym_ji` stays below 2^31. */
  lemma NumeratorFitsInt<T>(cluster_i: T, cluster_j: T, order_i: seq<T>, order_j: seq<T>)
    requires cluster_j in order_i && cluster_i in order_j
    requires multiset(order_i) == multiset(order_j)
    requires |order_i| <= 32768 && |order_j| <= 32768
    ensures 0 <= ClusterRankOrderDistance(cluster_i, cluster_j, order_i, order_j).numerator < 0x8000_0000
  {
    var pi, pj := IndexOf(order_i, cluster_j), IndexOf(order_j, cluster_i);
    var mi, mj := |order_i| - 1, |order_j| - 1;
    assert 0 <= pi <= 32767 && 0 <= pj <= 32767 && 0 <= mi <= 32767 && 0 <= mj <= 32767;
    MulLe(pi, 32767, mj);
    MulLe(mj, 32767, 32767);
    MulLe(pj, 32767, mi);
    MulLe(mi, 32767, 32767);
    assert mj * 32767 == 32767 * mj && mi * 32767 == 32767 * mi;
  }

  /** When each cluster heads its own list and the other comes right after it
      (mutual nearest neighbours), the ratio is 2 / 1. */
  lemma MutualNearestRatio<T>(cluster_i: T, cluster_j: T, order_i: seq<T>, order_j: seq<T>)
    requires cluster_i != cluster_j
    requires |order_i| >= 2 && order_i[0] == cluster_i && order_i[1] == cluster_j
    requires |order_j| >= 2 && order_j[0] == cluster_j && order_j[1] == cluster_i
    ensures ClusterRankOrderDistance(cluster_i, cluster_j, order_i, order_j) == RankOrderRatio(2, 1)
  {
    assert IndexOf(order_i, cluster_j) == 1 by { assert order_i[1..][0] == cluster_j; }
    assert IndexOf(order_j, cluster_i) == 1 by { assert order_j[1..][0] == cluster_i; }
    assert RankSum(order_i, order_j, 1) == IndexOf(order_j, order_i[0]) == 1;
    assert RankSum(order_j, order_i, 1) == IndexOf(order_i, order_j[0]) == 1;
  }
}
