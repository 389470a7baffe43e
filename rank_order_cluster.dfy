/** The class `RankOrderCluster` of RankOrderCluster.kt: it accumulates nodes
    and, after every addition, clusters all of them again from singletons by
    rounds of rank-order merging. */
module Clustering {
  import opened Collections
  import opened Clusters
  import opened RankOrder
  import opened Consolidation
  import opened MergeRounds

  /** `rodCluster < threshold`, where `rodCluster` is the ratio divided in
      double arithmetic: a zero denominator gives an infinity of the
      numerator's sign, or NaN for 0 / 0, and only negative infinity is below
      a finite threshold. */
  function RodBelow(r: RankOrderRatio, threshold: real): (b: bool)
    ensures r.denominator > 0 ==> (b <==> (r.numerator as real) < threshold * (r.denominator as real))
    ensures r.denominator < 0 ==> (b <==> (r.numerator as real) > threshold * (r.denominator as real))
    ensures r.denominator == 0 ==> (b <==> r.numerator < 0)
  {
    if r.denominator == 0 then r.numerator < 0
    else (r.numerator as real) / (r.denominator as real) < threshold
  }

  /** Scaling by a non-negative factor keeps an order. */
  lemma ScaledBelow(l: real, k: real, x: real, y: real)
    requires l == k * x && k >= 0.0 && x <= y
    ensures l <= k * y
  {
    assert k * y - k * x == k * (y - x);
  }

  /** `lndCluster`: the inverse neighbourhood average `k` times the cluster
      distance; with either cluster empty it is `k` times `Double.MAX_VALUE`. */
  function Linkage(k: real, ci: Cluster, cj: Cluster, dist: (NodeId, NodeId) -> real): (r: real)
    ensures ci.elements == [] || cj.elements == [] ==> r == k * MaxDouble
  {
    k * ci.Distance(cj, dist)
  }

  /** With `k` non-negative, `lndCluster` is at most `k` times the distance of
      any node pair across the two clusters. */
  lemma LinkageBelow(k: real, ci: Cluster, cj: Cluster, dist: (NodeId, NodeId) -> real, a: NodeId, b: NodeId)
    requires k >= 0.0 && a in ci.elements && b in cj.elements
    ensures Linkage(k, ci, cj, dist) <= k * dist(a, b)
  {
    ScaledBelow(Linkage(k, ci, cj, dist), k, ci.Distance(cj, dist), dist(a, b));
  }

  /** `Set<Node>` to the collection `Cluster(nodes)` takes: the nodes of `s`,
      each once, in some order. */
  method Enumerate(s: set<NodeId>) returns (r: seq<NodeId>)
    ensures Members(r) == s && Distinct(r)
  {
    r := [];
    var rest := s;
    while rest != {}
      invariant rest <= s && Members(r) == s - rest && Distinct(r)
      decreases |rest|
    {
      var x :| x in rest;
      assert x !in Members(r);
      r := Add(r, x);
      rest := rest - {x};
    }
  }

  /** `merged.map { Cluster(it) }`: one new cluster per block. */
  method BuildClusters(blocks: seq<set<NodeId>>) returns (clusters: seq<Cluster>)
    ensures |clusters| == |blocks|
    ensures forall k :: 0 <= k < |blocks| ==> Part(clusters[k]) == blocks[k]
  {
    clusters := [];
    for k := 0 to |blocks|
      invariant |clusters| == k
      invariant forall t :: 0 <= t < k ==> Part(clusters[t]) == blocks[t]
    {
      var nodes := Enumerate(blocks[k]);
      var c := new Cluster.FromNodes(nodes);
      clusters := clusters + [c];
    }
  }

  class RankOrderCluster {
    /** The bound `rodCluster` must stay under for a merge. */
    const threshold: real
    /** The `k` handed to `kNeighborAverage`. */
    const topNeighborCount: int
    /** The node distance `Node.distance`. */
    const dist: (NodeId, NodeId) -> real
    /** `kNeighborAverage(cluster_i, cluster_j, nodes, k)` on the clusters'
        elements, all the nodes and `k`. */
    const kNeighborAverage: (seq<NodeId>, seq<NodeId>, seq<NodeId>, int) -> real
    /** The nodes added so far, each once, in insertion order. */
    var nodes: seq<NodeId>

    ghost predicate Valid()
      reads this
    {
      Distinct(nodes)
    }

    constructor(threshold: real, topNeighborCount: int, dist: (NodeId, NodeId) -> real,
                kNeighborAverage: (seq<NodeId>, seq<NodeId>, seq<NodeId>, int) -> real)
      ensures Valid() && nodes == []
      ensures this.threshold == threshold && this.topNeighborCount == topNeighborCount
      ensures this.dist == dist && this.kNeighborAverage == kNeighborAverage
    {
      this.threshold := threshold;
      this.topNeighborCount := topNeighborCount;
      this.dist := dist;
      this.kNeighborAverage := kNeighborAverage;
      nodes := [];
    }

    /** The merge test of `update`: `rodCluster < threshold && lndCluster < 1.0`. */
    function MergeTest(rodCluster: RankOrderRatio, lndCluster: real): (b: bool)
      ensures b ==> lndCluster < 1.0
      ensures rodCluster.denominator > 0 ==>
                (b <==> (rodCluster.numerator as real) < threshold * (rodCluster.denominator as real) && lndCluster < 1.0)
      ensures rodCluster.denominator == 0 && rodCluster.numerator >= 0 ==> !b
    {
      RodBelow(rodCluster, threshold) && lndCluster < 1.0
    }

    /** `lndCluster` for the pair `cluster_i`, `cluster_j`. */
    function LinkageDistance(ci: Cluster, cj: Cluster, globalNodes: seq<NodeId>): real
    {
      Linkage(kNeighborAverage(ci.elements, cj.elements, globalNodes, topNeighborCount), ci, cj, dist)
    }

    /** The merge test on the pair `cluster_i`, `cluster_j` with their order lists. */
    function Accepts(ci: Cluster, cj: Cluster, oi: seq<Cluster>, oj: seq<Cluster>, globalNodes: seq<NodeId>): bool
    {
      MergeTest(ClusterRankOrderDistance(ci, cj, oi, oj), LinkageDistance(ci, cj, globalNodes))
    }

    /** The merge test of a round over `clusters`, as a relation on their
        positions: each cluster's order list is its ordered list over `clusters`. */
    function RoundPass(clusters: seq<Cluster>, globalNodes: seq<NodeId>): (int, int) -> bool
    {
      (i, j) => 0 <= i < |clusters| && 0 <= j < |clusters|
                && Accepts(clusters[i], clusters[j], ClusterOrderedList(clusters[i], clusters, dist),
                           ClusterOrderedList(clusters[j], clusters, dist), globalNodes)
    }

    /** Every cluster of the round is mapped to its order list. */
    ghost predicate HasOrderLists(clusters: seq<Cluster>, orderLists: map<Cluster, seq<Cluster>>)
    {
      forall c :: c in clusters ==> c in orderLists && orderLists[c] == ClusterOrderedList(c, clusters, dist)
    }

    /** One round of `update`: `cands` are, once each, the merge candidates of
        the ordered pairs of `before`, and `after` holds one cluster per block
        of their transitive merge. */
    ghost predicate RoundOutcome(before: seq<Cluster>, cands: seq<set<NodeId>>, after: seq<Cluster>)
      reads this
    {
      && Distinct(cands)
      && Members(cands) == Candidates(before, RoundPass(before, nodes))
      && IsConsolidation(cands, Parts(after))
    }

    /** Each recorded round leads to the next: `cands[r]` are the candidates
        of `rounds[r]`, and `rounds[r + 1]` holds the blocks of their merge. */
    ghost predicate Chained(rounds: seq<seq<Cluster>>, cands: seq<seq<set<NodeId>>>)
      reads this
      decreases |cands|
    {
      && |rounds| == |cands| + 1
      && (|cands| > 0 ==>
            && Chained(rounds[..|cands|], cands[..|cands| - 1])
            && RoundOutcome(rounds[|cands| - 1], cands[|cands| - 1], rounds[|cands|]))
    }

    /** `rounds` is a run of `update` ending in `clusters`: it starts with one
        singleton cluster per node, each round leads to the next, every round
        but the last had more candidates than blocks, and the last had as
        many candidates as blocks. */
    ghost predicate IsRun(rounds: seq<seq<Cluster>>, cands: seq<seq<set<NodeId>>>, clusters: seq<Cluster>)
      reads this
    {
      && |rounds| == |cands| + 1 && |cands| >= 1
      && |rounds[0]| == |nodes| && (forall k :: 0 <= k < |nodes| ==> Part(rounds[0][k]) == {nodes[k]})
      && Chained(rounds, cands)
      && (forall r :: 0 <= r < |cands| - 1 ==> |cands[r]| != |rounds[r + 1]|)
      && |cands[|cands| - 1]| == |clusters|
      && rounds[|rounds| - 1] == clusters
    }

    /** The first loop of a round: every cluster mapped to its order list. */
    method OrderLists(clusters: seq<Cluster>) returns (orderLists: map<Cluster, seq<Cluster>>)
      ensures HasOrderLists(clusters, orderLists)
    {
      orderLists := map[];
      for k := 0 to |clusters|
        invariant forall c :: c in clusters[..k] ==> c in orderLists
        invariant forall c :: c in orderLists ==> orderLists[c] == ClusterOrderedList(c, clusters, dist)
      {
        assert clusters[..k + 1] == clusters[..k] + [clusters[k]];
        orderLists := orderLists[clusters[k] := ClusterOrderedList(clusters[k], clusters, dist)];
      }
      assert clusters[..|clusters|] == clusters;
    }

    /** The nested loops of a round: `mergeCandidates` holds, once each, the
        candidates of every ordered pair of clusters. */
    method MergeCandidates(clusters: seq<Cluster>, orderLists: map<Cluster, seq<Cluster>>) returns (cands: seq<set<NodeId>>)
      requires HasOrderLists(clusters, orderLists)
      ensures Distinct(cands)
      ensures Members(cands) == Candidates(clusters, RoundPass(clusters, nodes))
    {
      ghost var pass := RoundPass(clusters, nodes);
      cands := [];
      for i := 0 to |clusters|
        invariant Distinct(cands) && Members(cands) == CandidatesBefore(clusters, pass, i, 0)
      {
        for j := 0 to |clusters|
          invariant Distinct(cands) && Members(cands) == CandidatesBefore(clusters, pass, i, j)
        {
          CandidatesStep(clusters, pass, i, j);
          cands := AddPair(clusters, orderLists, i, j, cands);
        }
        CandidatesRow(clusters, pass, i);
      }
    }

    /** The body of the nested loops for `cluster_i` at `i` and `cluster_j` at `j`. */
    method AddPair(clusters: seq<Cluster>, orderLists: map<Cluster, seq<Cluster>>, i: int, j: int, cands: seq<set<NodeId>>)
      returns (cands': seq<set<NodeId>>)
      requires 0 <= i < |clusters| && 0 <= j < |clusters|
      requires HasOrderLists(clusters, orderLists)
      requires Distinct(cands)
      ensures Distinct(cands')
      ensures Members(cands') == Members(cands) + PairCandidates(clusters, RoundPass(clusters, nodes), i, j)
    {
      var ci, cj := clusters[i], clusters[j];
      if ci == cj {
        return cands;
      }
      var rodCluster := ClusterRankOrderDistance(ci, cj, orderLists[ci], orderLists[cj]);
      var lndCluster := LinkageDistance(ci, cj, nodes);
      assert ci in clusters && cj in clusters;
      assert RoundPass(clusters, nodes)(i, j) == Accepts(ci, cj, orderLists[ci], orderLists[cj], nodes);
      assert Accepts(ci, cj, orderLists[ci], orderLists[cj], nodes) == MergeTest(rodCluster, lndCluster);
      if MergeTest(rodCluster, lndCluster) {
        cands' := Add(cands, Part(ci) + Part(cj));
      } else {
        cands' := Add(cands, Part(ci));
        cands' := Add(cands', Part(cj));
      }
    }

    /** The bookkeeping of `update`'s loop: `rounds` and `cands` record the
        rounds so far, ending in `clusters`; while the loop goes on every
        round had more candidates than blocks, and once it stops the record
        is a whole run. */
    ghost predicate Trace(rounds: seq<seq<Cluster>>, cands: seq<seq<set<NodeId>>>, clusters: seq<Cluster>, iterate: bool)
      reads this
    {
      && |rounds| == |cands| + 1 && rounds[|rounds| - 1] == clusters
      && |rounds[0]| == |nodes| && (forall k :: 0 <= k < |nodes| ==> Part(rounds[0][k]) == {nodes[k]})
      && Chained(rounds, cands)
      && (iterate ==> forall r :: 0 <= r < |cands| ==> |cands[r]| != |rounds[r + 1]|)
      && (!iterate ==> IsRun(rounds, cands, clusters))
    }

    /** Recording one more round of the loop. */
    lemma TraceStep(rounds: seq<seq<Cluster>>, cands: seq<seq<set<NodeId>>>, before: seq<Cluster>,
                    mergeCandidates: seq<set<NodeId>>, after: seq<Cluster>, iterate: bool)
      requires Trace(rounds, cands, before, true)
      requires RoundOutcome(before, mergeCandidates, after)
      requires iterate <==> |mergeCandidates| != |after|
      ensures Trace(rounds + [after], cands + [mergeCandidates], after, iterate)
      ensures (rounds + [after])[|rounds| - 1] == before
    {
      var rounds', cands' := rounds + [after], cands + [mergeCandidates];
      assert rounds'[..|cands'|] == rounds && cands'[..|cands'| - 1] == cands;
      forall r | 0 <= r < |cands'| - 1 ensures |cands'[r]| != |rounds'[r + 1]| {
        assert rounds'[r + 1] == rounds[r + 1] && cands'[r] == cands[r];
      }
    }

    /** What one round does to a partition: the clusters built from the
        merge are again a partition, no more numerous; they keep all the nodes
        when there were two clusters or more, and as many clusters as before
        means as many candidates as blocks. With at most one cluster, nothing
        is left. */
    lemma RoundFacts(before: seq<Cluster>, mergeCandidates: seq<set<NodeId>>, merged: seq<set<NodeId>>, after: seq<Cluster>)
      requires Partition(before)
      requires Distinct(mergeCandidates) && Members(mergeCandidates) == Candidates(before, RoundPass(before, nodes))
      requires IsConsolidation(mergeCandidates, merged)
      requires |after| == |merged| && forall k :: 0 <= k < |merged| ==> Part(after[k]) == merged[k]
      ensures RoundOutcome(before, mergeCandidates, after)
      ensures Partition(after)
      ensures |after| <= |before| && (|after| == |before| ==> |mergeCandidates| == |after|)
      ensures |before| >= 2 ==> ElementsOf(after) == ElementsOf(before) && after != []
      ensures |before| <= 1 ==> after == [] && mergeCandidates == []
    {
      ghost var pass := RoundPass(before, nodes);
      RoundShrinks(before, pass, mergeCandidates, merged);
      RoundBlocks(before, pass, mergeCandidates, merged);
      ClustersOfBlocks(after, merged);
      assert Parts(after) == merged;
      if |before| >= 2 {
        PartitionHasElements(before);
      }
    }

    /** The body of `update`'s loop: order lists, merge candidates, their
        transitive merge, and the clusters built from it. */
    method Round(clusters: seq<Cluster>)
      returns (mergeCandidates: seq<set<NodeId>>, merged: seq<set<NodeId>>, next: seq<Cluster>)
      requires Partition(clusters)
      ensures |merged| == |next|
      ensures RoundOutcome(clusters, mergeCandidates, next)
      ensures Partition(next)
      ensures |next| <= |clusters| && (|next| == |clusters| ==> |mergeCandidates| == |next|)
      ensures |clusters| >= 2 ==> ElementsOf(next) == ElementsOf(clusters) && next != []
      ensures |clusters| <= 1 ==> next == [] && mergeCandidates == []
    {
      var orderLists := OrderLists(clusters);
      mergeCandidates := MergeCandidates(clusters, orderLists);
      merged := TransitiveMerge(mergeCandidates);
      next := BuildClusters(merged);
      RoundFacts(clusters, mergeCandidates, merged, next);
    }

    /** `update`: clusters all the nodes from singletons, round after round,
        until a round's consolidation yields as many blocks as candidates.
        `rounds` and `cands` record the run; `last` is the partition of the
        nodes that the final round started from. The result is a partition of
        all the nodes, except when the final round started with at most one
        cluster: that round has no candidates, so the result is empty. */
    method Update() returns (clusters: seq<Cluster>, ghost last: seq<Cluster>,
                             ghost rounds: seq<seq<Cluster>>, ghost cands: seq<seq<set<NodeId>>>)
      requires Valid()
      ensures IsRun(rounds, cands, clusters) && last == rounds[|rounds| - 2]
      ensures Partition(last) && ElementsOf(last) == Members(nodes)
      ensures Partition(clusters)
      ensures clusters == [] <==> |last| <= 1
      ensures |last| >= 2 ==> ElementsOf(clusters) == Members(nodes)
      ensures |nodes| <= 1 ==> clusters == []
    {
      clusters := Singletons(nodes);
      last := clusters;
      rounds, cands := [clusters], [];
      var iterate := true;
      while iterate
        invariant Partition(clusters)
        invariant Partition(last) && ElementsOf(last) == Members(nodes)
        invariant iterate ==> ElementsOf(clusters) == Members(nodes)
        invariant !iterate ==> (clusters == [] <==> |last| <= 1)
        invariant !iterate && |last| >= 2 ==> ElementsOf(clusters) == Members(nodes)
        invariant |nodes| <= 1 ==> |clusters| <= 1 && (!iterate ==> clusters == [])
        invariant Trace(rounds, cands, clusters, iterate)
        invariant !iterate ==> last == rounds[|rounds| - 2]
        decreases if iterate then |clusters| + 1 else 0
      {
        last := clusters;
        var mergeCandidates, merged, next := Round(clusters);
        if |mergeCandidates| == |merged| {
          iterate := false;
        }
        clusters := next;
        TraceStep(rounds, cands, last, mergeCandidates, clusters, iterate);
        rounds, cands := rounds + [clusters], cands + [mergeCandidates];
      }
    }

    /** `addNode`: adds `node` unless present, then clusters again. */
    method AddNode(node: NodeId)
      returns (clusters: seq<Cluster>, ghost last: seq<Cluster>,
               ghost rounds: seq<seq<Cluster>>, ghost cands: seq<seq<set<NodeId>>>)
      requires Valid()
      modifies this
      ensures Valid() && nodes == Add(old(nodes), node)
      ensures IsRun(rounds, cands, clusters) && last == rounds[|rounds| - 2]
      ensures Partition(last) && ElementsOf(last) == Members(nodes)
      ensures Partition(clusters)
      ensures clusters == [] <==> |last| <= 1
      ensures |last| >= 2 ==> ElementsOf(clusters) == Members(nodes)
      ensures |nodes| <= 1 ==> clusters == []
    {
      nodes := Add(nodes, node);
      clusters, last, rounds, cands := Update();
    }

    /** `addNodes`: adds the new nodes in order, then clusters again. */
    method AddNodes(newNodes: seq<NodeId>)
      returns (clusters: seq<Cluster>, ghost last: seq<Cluster>,
               ghost rounds: seq<seq<Cluster>>, ghost cands: seq<seq<set<NodeId>>>)
      requires Valid()
      modifies this
      ensures Valid() && nodes == AddAll(old(nodes), newNodes)
      ensures IsRun(rounds, cands, clusters) && last == rounds[|rounds| - 2]
      ensures Partition(last) && ElementsOf(last) == Members(nodes)
      ensures Partition(clusters)
      ensures clusters == [] <==> |last| <= 1
      ensures |last| >= 2 ==> ElementsOf(clusters) == Members(nodes)
      ensures |nodes| <= 1 ==> clusters == []
    {
      nodes := AddAll(nodes, newNodes);
      clusters, last, rounds, cands := Update();
    }
  }

  /** `nodes.map { Cluster(listOf(it)) }`: one singleton cluster per node. */
  method Singletons(nodes: seq<NodeId>) returns (clusters: seq<Cluster>)
    requires Distinct(nodes)
    ensures |clusters| == |nodes|
    ensures forall k :: 0 <= k < |nodes| ==> Part(clusters[k]) == {nodes[k]}
    ensures Partition(clusters) && ElementsOf(clusters) == Members(nodes)
  {
    clusters := [];
    for k := 0 to |nodes|
      invariant |clusters| == k
      invariant forall t :: 0 <= t < k ==> Part(clusters[t]) == {nodes[t]}
    {
      var c := new Cluster.FromNodes([nodes[k]]);
      clusters := clusters + [c];
    }
    forall x | x in ElementsOf(clusters) ensures x in Members(nodes) {
      var c :| c in clusters && x in c.elements;
      var k :| 0 <= k < |clusters| && clusters[k] == c;
      assert x in Part(clusters[k]);
    }
    forall x | x in Members(nodes) ensures x in ElementsOf(clusters) {
      var k :| 0 <= k < |nodes| && nodes[k] == x;
      assert x in Part(clusters[k]) && clusters[k] in clusters;
    }
  }
}
