/** One round of `RankOrderCluster.update`: the merge candidates that the
    pairs of clusters contribute, and what consolidating them does to the
    clusters. The merge test is a relation `pass` on positions of `clusters`. */
module MergeRounds {
  import opened Collections
  import opened Clusters
  import opened Consolidation
  import opened ConsolidationFacts

  /** The node set of a cluster. */
  function Part(c: Cluster): set<NodeId>
  {
    Members(c.elements)
  }

  /** The node sets of `clusters`, position by position. */
  function Parts(clusters: seq<Cluster>): (r: seq<set<NodeId>>)
    ensures |r| == |clusters|
    ensures forall i :: 0 <= i < |clusters| ==> r[i] == Part(clusters[i])
  {
    seq(|clusters|, i requires 0 <= i < |clusters| => Part(clusters[i]))
  }

  /** The clusters of a round are non-empty and pairwise disjoint. */
  ghost predicate Partition(clusters: seq<Cluster>)
  {
    && (forall i :: 0 <= i < |clusters| ==> Part(clusters[i]) != {})
    && (forall i, j :: 0 <= i < |clusters| && 0 <= j < |clusters| && i != j ==>
          Part(clusters[i]) * Part(clusters[j]) == {})
  }

  /** What the ordered pair at positions `i`, `j` adds to `mergeCandidates`:
      nothing for the same cluster, the union of both node sets when the
      merge test passes, and both node sets separately when it fails. */
  function PairCandidates(clusters: seq<Cluster>, pass: (int, int) -> bool, i: int, j: int): set<set<NodeId>>
    requires 0 <= i < |clusters| && 0 <= j < |clusters|
  {
    if clusters[i] == clusters[j] then {}
    else if pass(i, j) then {Part(clusters[i]) + Part(clusters[j])}
    else {Part(clusters[i]), Part(clusters[j])}
  }

  /** The candidates added by the pairs the two nested loops visit before
      reaching `cluster_i` at `i0` and `cluster_j` at `j0`. */
  ghost function CandidatesBefore(clusters: seq<Cluster>, pass: (int, int) -> bool, i0: int, j0: int): set<set<NodeId>>
  {
    set i, j, s | 0 <= i < |clusters| && 0 <= j < |clusters| && (i < i0 || (i == i0 && j < j0))
                  && s in PairCandidates(clusters, pass, i, j) :: s
  }

  /** All the candidates of a round. */
  ghost function Candidates(clusters: seq<Cluster>, pass: (int, int) -> bool): set<set<NodeId>>
  {
    CandidatesBefore(clusters, pass, |clusters|, 0)
  }

  lemma CandidatesNone(clusters: seq<Cluster>, pass: (int, int) -> bool)
    ensures CandidatesBefore(clusters, pass, 0, 0) == {}
  {
  }

  /** Visiting one more pair adds exactly that pair's candidates. */
  lemma CandidatesStep(clusters: seq<Cluster>, pass: (int, int) -> bool, i0: int, j0: int)
    requires 0 <= i0 < |clusters| && 0 <= j0 < |clusters|
    ensures CandidatesBefore(clusters, pass, i0, j0 + 1)
         == CandidatesBefore(clusters, pass, i0, j0) + PairCandidates(clusters, pass, i0, j0)
  {
    var before, after := CandidatesBefore(clusters, pass, i0, j0), CandidatesBefore(clusters, pass, i0, j0 + 1);
    forall s | s in PairCandidates(clusters, pass, i0, j0) ensures s in after {
      assert 0 <= i0 < |clusters| && 0 <= j0 < |clusters| && s in PairCandidates(clusters, pass, i0, j0);
    }
    forall s | s in after ensures s in before || s in PairCandidates(clusters, pass, i0, j0) {
      var i, j :| 0 <= i < |clusters| && 0 <= j < |clusters| && (i < i0 || (i == i0 && j < j0 + 1))
                  && s in PairCandidates(clusters, pass, i, j);
      if i < i0 || j < j0 {
        assert s in before;
      }
    }
  }

  /** Finishing the inner loop is starting the next row. */
  lemma CandidatesRow(clusters: seq<Cluster>, pass: (int, int) -> bool, i0: int)
    ensures CandidatesBefore(clusters, pass, i0, |clusters|) == CandidatesBefore(clusters, pass, i0 + 1, 0)
  {
  }

  /** Distinct positions of a partition hold distinct clusters with distinct node sets. */
  lemma PartitionDistinct(clusters: seq<Cluster>, i: int, j: int)
    requires Partition(clusters)
    requires 0 <= i < |clusters| && 0 <= j < |clusters| && i != j
    ensures Part(clusters[i]) != Part(clusters[j]) && clusters[i] != clusters[j]
  {
    var x :| x in Part(clusters[i]);
    assert Part(clusters[i]) * Part(clusters[j]) == {};
    assert x !in Part(clusters[i]) * Part(clusters[j]);
  }

  /** A partition with a cluster in it has some node. */
  lemma PartitionHasElements(clusters: seq<Cluster>)
    requires Partition(clusters) && |clusters| >= 1
    ensures ElementsOf(clusters) != {}
  {
    var x :| x in Part(clusters[0]);
    assert clusters[0] in clusters && x in clusters[0].elements;
  }

  /** A candidate is one cluster's node set or the union of two. */
  lemma CandidateShape(clusters: seq<Cluster>, pass: (int, int) -> bool, s: set<NodeId>) returns (i: int, j: int, both: bool)
    requires s in Candidates(clusters, pass)
    ensures 0 <= i < |clusters| && 0 <= j < |clusters|
    ensures s == if both then Part(clusters[i]) + Part(clusters[j]) else Part(clusters[i])
    ensures both ==> pass(i, j)
  {
    var i', j' :| 0 <= i' < |clusters| && 0 <= j' < |clusters| && s in PairCandidates(clusters, pass, i', j');
    if pass(i', j') {
      i, j, both := i', j', true;
    } else if s == Part(clusters[i']) {
      i, j, both := i', j', false;
    } else {
      i, j, both := j', i', false;
    }
  }

  /** With two clusters or more, every cluster's node set lies inside a candidate. */
  lemma CandidateAround(clusters: seq<Cluster>, pass: (int, int) -> bool, i: int) returns (s: set<NodeId>)
    requires Partition(clusters) && |clusters| >= 2 && 0 <= i < |clusters|
    ensures s in Candidates(clusters, pass) && Part(clusters[i]) <= s
  {
    var j := if i == 0 then 1 else 0;
    PartitionDistinct(clusters, i, j);
    s := if pass(i, j) then Part(clusters[i]) + Part(clusters[j]) else Part(clusters[i]);
    assert s in PairCandidates(clusters, pass, i, j);
  }

  /** Candidates are never empty. */
  lemma NoEmptyCandidate(clusters: seq<Cluster>, pass: (int, int) -> bool)
    requires Partition(clusters)
    ensures {} !in Candidates(clusters, pass)
  {
    forall s | s in Candidates(clusters, pass) ensures s != {} {
      var i, j, both := CandidateShape(clusters, pass, s);
      var x :| x in Part(clusters[i]);
      assert x in s;
    }
  }

  /** With fewer than two clusters no pair is visited. */
  lemma FewClustersNoCandidates(clusters: seq<Cluster>, pass: (int, int) -> bool)
    requires |clusters| <= 1
    ensures Candidates(clusters, pass) == {}
  {
    forall i, j | 0 <= i < |clusters| && 0 <= j < |clusters|
      ensures PairCandidates(clusters, pass, i, j) == {}
    {
      assert i == j;
    }
  }

  /** With two clusters or more, the candidates hold exactly the nodes of the clusters. */
  lemma CandidatesUnion(clusters: seq<Cluster>, pass: (int, int) -> bool, cands: seq<set<NodeId>>)
    requires Partition(clusters) && |clusters| >= 2
    requires Members(cands) == Candidates(clusters, pass)
    ensures UnionOf(cands) == ElementsOf(clusters)
  {
    forall x | x in UnionOf(cands) ensures x in ElementsOf(clusters) {
      var m :| 0 <= m < |cands| && x in cands[m];
      assert cands[m] in Members(cands);
      var i, j, both := CandidateShape(clusters, pass, cands[m]);
      if x in clusters[i].elements {
        assert clusters[i] in clusters;
      } else {
        assert clusters[j] in clusters && x in clusters[j].elements;
      }
    }
    forall x | x in ElementsOf(clusters) ensures x in UnionOf(cands) {
      var c :| c in clusters && x in c.elements;
      var i :| 0 <= i < |clusters| && clusters[i] == c;
      var s := CandidateAround(clusters, pass, i);
      assert s in Members(cands);
      var m :| 0 <= m < |cands| && cands[m] == s;
      assert x in cands[m];
    }
  }

  /** The block of the consolidated candidates that holds a given cluster. */
  lemma HomeBlock(clusters: seq<Cluster>, pass: (int, int) -> bool, cands: seq<set<NodeId>>, merged: seq<set<NodeId>>, i: int)
    returns (k: int)
    requires Partition(clusters) && |clusters| >= 2 && 0 <= i < |clusters|
    requires Members(cands) == Candidates(clusters, pass) && Covers(cands, merged)
    ensures 0 <= k < |merged| && Part(clusters[i]) <= merged[k]
  {
    var s := CandidateAround(clusters, pass, i);
    assert s in Members(cands);
    var m :| 0 <= m < |cands| && cands[m] == s;
    assert InsideSomeBlock(cands[m], merged);
    k :| 0 <= k < |merged| && cands[m] <= merged[k];
  }

  /** The home blocks of all clusters, position by position. */
  lemma HomeBlocks(clusters: seq<Cluster>, pass: (int, int) -> bool, cands: seq<set<NodeId>>, merged: seq<set<NodeId>>)
    returns (home: seq<int>)
    requires Partition(clusters) && |clusters| >= 2
    requires Members(cands) == Candidates(clusters, pass) && Covers(cands, merged)
    ensures |home| == |clusters|
    ensures forall i :: 0 <= i < |clusters| ==> 0 <= home[i] < |merged| && Part(clusters[i]) <= merged[home[i]]
  {
    home := [];
    for i := 0 to |clusters|
      invariant |home| == i
      invariant forall t :: 0 <= t < i ==> 0 <= home[t] < |merged| && Part(clusters[t]) <= merged[home[t]]
    {
      var k := HomeBlock(clusters, pass, cands, merged, i);
      home := home + [k];
    }
  }

  /** Every block is the home block of some cluster. */
  lemma HomesCoverBlocks(clusters: seq<Cluster>, pass: (int, int) -> bool, cands: seq<set<NodeId>>,
                         merged: seq<set<NodeId>>, home: seq<int>)
    requires Partition(clusters) && |home| == |clusters|
    requires forall i :: 0 <= i < |clusters| ==> 0 <= home[i] < |merged| && Part(clusters[i]) <= merged[home[i]]
    requires Members(cands) == Candidates(clusters, pass)
    requires PairwiseDisjoint(merged) && MadeOfInputs(cands, merged) && ({} in merged <==> {} in cands)
    ensures Members(home) == Below(|merged|)
  {
    assert {} !in merged by {
      NoEmptyCandidate(clusters, pass);
      assert {} !in Members(cands);
    }
    forall k | 0 <= k < |merged| ensures k in home {
      var t := BlockHome(clusters, pass, cands, merged, home, k);
    }
    IndicesOnto(home, |merged|);
  }

  /** Positions below `n` that all occur in `home`, which holds nothing else,
      are exactly its members. */
  lemma IndicesOnto(home: seq<int>, n: nat)
    requires forall i :: 0 <= i < |home| ==> 0 <= home[i] < n
    requires forall k :: 0 <= k < n ==> k in home
    ensures Members(home) == Below(n)
  {
  }

  /** A cluster whose home is block `k`. */
  lemma BlockHome(clusters: seq<Cluster>, pass: (int, int) -> bool, cands: seq<set<NodeId>>,
                  merged: seq<set<NodeId>>, home: seq<int>, k: int) returns (t: int)
    requires |home| == |clusters|
    requires forall i :: 0 <= i < |clusters| ==> 0 <= home[i] < |merged| && Part(clusters[i]) <= merged[home[i]]
    requires Members(cands) == Candidates(clusters, pass)
    requires PairwiseDisjoint(merged) && MadeOfInputs(cands, merged) && {} !in merged
    requires 0 <= k < |merged|
    ensures 0 <= t < |clusters| && home[t] == k
  {
    assert merged[k] != {} by { assert merged[k] in merged; }
    var x :| x in merged[k];
    assert x in UnionOf(cands);
    var m :| 0 <= m < |cands| && x in cands[m];
    assert cands[m] in Members(cands);
    var i, j, both := CandidateShape(clusters, pass, cands[m]);
    t := if x in Part(clusters[i]) then i else j;
    assert x in merged[home[t]];
    SharedElementSameBlock(merged, k, home[t], x);
  }

  /** A round never yields more blocks than it had clusters; with two
      clusters or more, as many blocks means no two clusters went into one
      block, so the candidates were just the clusters' node sets and there
      are as many of them as blocks. */
  lemma RoundShrinks(clusters: seq<Cluster>, pass: (int, int) -> bool, cands: seq<set<NodeId>>, merged: seq<set<NodeId>>)
    requires Partition(clusters)
    requires Members(cands) == Candidates(clusters, pass) && Distinct(cands)
    requires IsConsolidation(cands, merged)
    ensures |merged| <= |clusters|
    ensures |merged| == |clusters| ==> |cands| == |merged|
  {
    if |clusters| <= 1 {
      FewRoundEmpty(clusters, pass, cands, merged);
    } else {
      var home := HomeBlocks(clusters, pass, cands, merged);
      HomesCoverBlocks(clusters, pass, cands, merged, home);
      MembersCard(home);
      if |merged| == |clusters| {
        FullMembersDistinct(home);
        SameCountCandidates(clusters, pass, cands, merged, home);
      }
    }
  }

  /** A round that starts with fewer than two clusters has no candidates and no blocks. */
  lemma FewRoundEmpty(clusters: seq<Cluster>, pass: (int, int) -> bool, cands: seq<set<NodeId>>, merged: seq<set<NodeId>>)
    requires |clusters| <= 1
    requires Members(cands) == Candidates(clusters, pass) && Distinct(cands)
    requires IsConsolidation(cands, merged)
    ensures cands == [] && merged == []
  {
    FewClustersNoCandidates(clusters, pass);
    MembersCard(cands);
    forall k | 0 <= k < |merged| ensures merged[k] == {} {
      assert merged[k] <= UnionOf(cands);
    }
    assert {} !in merged;
    assert Members(merged) == {};
    MembersCard(merged);
  }

  /** When the home blocks are all different, the candidates are exactly the
      clusters' node sets. */
  lemma SameCountCandidates(clusters: seq<Cluster>, pass: (int, int) -> bool, cands: seq<set<NodeId>>,
                            merged: seq<set<NodeId>>, home: seq<int>)
    requires Partition(clusters) && |clusters| >= 2
    requires Members(cands) == Candidates(clusters, pass) && Distinct(cands)
    requires PairwiseDisjoint(merged) && Covers(cands, merged)
    requires |home| == |clusters| && Distinct(home)
    requires forall i :: 0 <= i < |clusters| ==> 0 <= home[i] < |merged| && Part(clusters[i]) <= merged[home[i]]
    ensures Members(cands) == Members(Parts(clusters))
    ensures |cands| == |clusters|
  {
    CandidatesAreParts(clusters, pass, cands, merged, home);
    PartsAreCandidates(clusters, pass, cands, merged, home);
    PartsDistinct(clusters);
    MembersCard(cands);
    MembersCard(Parts(clusters));
  }

  lemma CandidatesAreParts(clusters: seq<Cluster>, pass: (int, int) -> bool, cands: seq<set<NodeId>>,
                           merged: seq<set<NodeId>>, home: seq<int>)
    requires Partition(clusters)
    requires Members(cands) == Candidates(clusters, pass)
    requires PairwiseDisjoint(merged) && Covers(cands, merged)
    requires |home| == |clusters| && Distinct(home)
    requires forall i :: 0 <= i < |clusters| ==> 0 <= home[i] < |merged| && Part(clusters[i]) <= merged[home[i]]
    ensures Members(cands) <= Members(Parts(clusters))
  {
    var parts := Parts(clusters);
    forall s | s in Members(cands) ensures s in Members(parts) {
      var i, j, both := CandidateShape(clusters, pass, s);
      if both {
        SameBlockSameHome(clusters, cands, merged, home, s, i, j);
      }
      assert s == parts[i];
    }
  }

  lemma PartsAreCandidates(clusters: seq<Cluster>, pass: (int, int) -> bool, cands: seq<set<NodeId>>,
                           merged: seq<set<NodeId>>, home: seq<int>)
    requires Partition(clusters) && |clusters| >= 2
    requires Members(cands) == Candidates(clusters, pass)
    requires PairwiseDisjoint(merged) && Covers(cands, merged)
    requires |home| == |clusters| && Distinct(home)
    requires forall i :: 0 <= i < |clusters| ==> 0 <= home[i] < |merged| && Part(clusters[i]) <= merged[home[i]]
    ensures Members(Parts(clusters)) <= Members(cands)
  {
    var parts := Parts(clusters);
    forall i | 0 <= i < |clusters| ensures parts[i] in Members(cands) {
      var j := if i == 0 then 1 else 0;
      PartitionDistinct(clusters, i, j);
      PassJoinsHomes(clusters, pass, cands, merged, home, i, j);
      assert parts[i] in PairCandidates(clusters, pass, i, j);
    }
  }

  /** The node sets of a partition are all different. */
  lemma PartsDistinct(clusters: seq<Cluster>)
    requires Partition(clusters)
    ensures Distinct(Parts(clusters))
  {
    var parts := Parts(clusters);
    forall p, q | 0 <= p < q < |parts| ensures parts[p] != parts[q] {
      PartitionDistinct(clusters, p, q);
    }
  }

  /** Two clusters inside one candidate have the same home block; with
      distinct home blocks, they are one cluster. */
  lemma SameBlockSameHome(clusters: seq<Cluster>, cands: seq<set<NodeId>>, merged: seq<set<NodeId>>,
                          home: seq<int>, s: set<NodeId>, i: int, j: int)
    requires Partition(clusters) && 0 <= i < |clusters| && 0 <= j < |clusters|
    requires PairwiseDisjoint(merged) && Covers(cands, merged)
    requires |home| == |clusters| && Distinct(home)
    requires forall t :: 0 <= t < |clusters| ==> 0 <= home[t] < |merged| && Part(clusters[t]) <= merged[home[t]]
    requires s in Members(cands) && Part(clusters[i]) <= s && Part(clusters[j]) <= s
    ensures i == j
  {
    var m :| 0 <= m < |cands| && cands[m] == s;
    assert InsideSomeBlock(cands[m], merged);
    var k :| 0 <= k < |merged| && cands[m] <= merged[k];
    var x :| x in Part(clusters[i]);
    var y :| y in Part(clusters[j]);
    SharedElementSameBlock(merged, k, home[i], x);
    SharedElementSameBlock(merged, k, home[j], y);
  }

  /** Two clusters the merge test joins share their home block. */
  lemma PassJoinsHomes(clusters: seq<Cluster>, pass: (int, int) -> bool, cands: seq<set<NodeId>>,
                       merged: seq<set<NodeId>>, home: seq<int>, i: int, j: int)
    requires Partition(clusters) && 0 <= i < |clusters| && 0 <= j < |clusters|
    requires clusters[i] != clusters[j]
    requires Members(cands) == Candidates(clusters, pass)
    requires PairwiseDisjoint(merged) && Covers(cands, merged)
    requires |home| == |clusters|
    requires forall t :: 0 <= t < |clusters| ==> 0 <= home[t] < |merged| && Part(clusters[t]) <= merged[home[t]]
    ensures pass(i, j) ==> home[i] == home[j]
  {
    if pass(i, j) {
      var s := Part(clusters[i]) + Part(clusters[j]);
      assert s in PairCandidates(clusters, pass, i, j);
      assert s in Members(cands);
      var m :| 0 <= m < |cands| && cands[m] == s;
      assert InsideSomeBlock(cands[m], merged);
      var k :| 0 <= k < |merged| && cands[m] <= merged[k];
      var x :| x in Part(clusters[i]);
      var y :| y in Part(clusters[j]);
      SharedElementSameBlock(merged, k, home[i], x);
      SharedElementSameBlock(merged, k, home[j], y);
    }
  }

  /** After a round, the blocks are non-empty and pairwise disjoint; with two
      clusters or more they hold all the clusters' nodes, with fewer there are
      none. */
  lemma RoundBlocks(clusters: seq<Cluster>, pass: (int, int) -> bool, cands: seq<set<NodeId>>, merged: seq<set<NodeId>>)
    requires Partition(clusters)
    requires Members(cands) == Candidates(clusters, pass) && Distinct(cands)
    requires IsConsolidation(cands, merged)
    ensures PairwiseDisjoint(merged) && {} !in merged
    ensures |clusters| >= 2 ==> UnionOf(merged) == ElementsOf(clusters)
    ensures |clusters| <= 1 ==> cands == [] && merged == []
  {
    NoEmptyCandidate(clusters, pass);
    assert {} !in cands by { assert {} !in Members(cands); }
    if |clusters| >= 2 {
      CandidatesUnion(clusters, pass, cands);
      ConsolidationUnion(cands, merged);
    } else {
      FewRoundEmpty(clusters, pass, cands, merged);
    }
  }

  /** A round in which the merge test fails for every pair: the candidates
      are the clusters' node sets, and consolidating them changes nothing, so
      the round ends the loop. */
  lemma QuietRound(clusters: seq<Cluster>, pass: (int, int) -> bool, cands: seq<set<NodeId>>, merged: seq<set<NodeId>>)
    requires Partition(clusters) && |clusters| >= 2
    requires forall i, j :: 0 <= i < |clusters| && 0 <= j < |clusters| ==> !pass(i, j)
    requires Members(cands) == Candidates(clusters, pass) && Distinct(cands)
    requires IsConsolidation(cands, merged)
    ensures Members(cands) == Members(Parts(clusters))
    ensures Members(merged) == Members(cands) && |merged| == |cands|
  {
    QuietCandidates(clusters, pass, cands);
    PartsDisjoint(clusters, cands);
    ConsolidationOfDisjoint(cands, merged);
    MembersCard(cands);
    MembersCard(merged);
  }

  lemma QuietCandidates(clusters: seq<Cluster>, pass: (int, int) -> bool, cands: seq<set<NodeId>>)
    requires Partition(clusters) && |clusters| >= 2
    requires forall i, j :: 0 <= i < |clusters| && 0 <= j < |clusters| ==> !pass(i, j)
    requires Members(cands) == Candidates(clusters, pass)
    ensures Members(cands) == Members(Parts(clusters))
  {
    var parts := Parts(clusters);
    forall s | s in Members(cands) ensures s in Members(parts) {
      var i, j, both := CandidateShape(clusters, pass, s);
      assert s == parts[i];
    }
    forall i | 0 <= i < |clusters| ensures parts[i] in Members(cands) {
      QuietPartIsCandidate(clusters, pass, i);
    }
  }

  lemma QuietPartIsCandidate(clusters: seq<Cluster>, pass: (int, int) -> bool, i: int)
    requires Partition(clusters) && |clusters| >= 2 && 0 <= i < |clusters|
    requires forall i, j :: 0 <= i < |clusters| && 0 <= j < |clusters| ==> !pass(i, j)
    ensures Part(clusters[i]) in Candidates(clusters, pass)
  {
    var j := if i == 0 then 1 else 0;
    PartitionDistinct(clusters, i, j);
    assert Part(clusters[i]) in PairCandidates(clusters, pass, i, j);
  }

  /** Distinct node sets of a partition's clusters are disjoint. */
  lemma PartsDisjoint(clusters: seq<Cluster>, sets: seq<set<NodeId>>)
    requires Partition(clusters)
    requires Distinct(sets) && Members(sets) <= Members(Parts(clusters))
    ensures PairwiseDisjoint(sets)
  {
    var parts := Parts(clusters);
    forall p, q | 0 <= p < |sets| && 0 <= q < |sets| && p != q ensures sets[p] * sets[q] == {} {
      assert sets[p] in Members(parts) && sets[q] in Members(parts);
      var i :| 0 <= i < |parts| && parts[i] == sets[p];
      var j :| 0 <= j < |parts| && parts[j] == sets[q];
      assert sets[p] != sets[q];
      assert Part(clusters[i]) * Part(clusters[j]) == {};
    }
  }

  /** Clusters built one per block, from pairwise disjoint non-empty blocks,
      form a partition of the blocks' nodes. */
  lemma ClustersOfBlocks(clusters: seq<Cluster>, blocks: seq<set<NodeId>>)
    requires |clusters| == |blocks|
    requires forall k :: 0 <= k < |blocks| ==> Part(clusters[k]) == blocks[k]
    requires PairwiseDisjoint(blocks) && {} !in blocks
    ensures Partition(clusters) && ElementsOf(clusters) == UnionOf(blocks)
  {
    forall k | 0 <= k < |clusters| ensures Part(clusters[k]) != {} {
      assert blocks[k] in blocks;
    }
    forall x | x in ElementsOf(clusters) ensures x in UnionOf(blocks) {
      var c :| c in clusters && x in c.elements;
      var k :| 0 <= k < |clusters| && clusters[k] == c;
      assert x in blocks[k];
    }
    forall x | x in UnionOf(blocks) ensures x in ElementsOf(clusters) {
      var k :| 0 <= k < |blocks| && x in blocks[k];
      assert clusters[k] in clusters && x in clusters[k].elements;
    }
  }
}
