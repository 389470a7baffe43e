/** Cluster.kt: a cluster is a set of nodes, built once by one of three
    constructors and never changed afterwards, with a single-linkage distance.
    Nodes and clusters are compared by identity: a node is its `NodeId`, a
    cluster is a reference. The Euclidean node distance is not modelled; every
    operation takes the node distance `dist` as a parameter. */
module Clusters {
  import opened Collections

  /** A node, identified by identity (Node does not override `equals`). */
  type NodeId = nat

  /** `Double.MAX_VALUE`, (2 - 2^-52) * 2^1023, the seed of the distance fold. */
  const MaxDouble: real := 179769313486231570814527423731704356798070567525844996598917476803157260780028538760589558632766878171540458953514382464234321326889464182768467546703537516986049910576551282076245490090389328944075868508455133942304583236903222948165808559332123348274797826204144723168738177180919299881250404026184124858368.0

  /** `kotlin.math.min` on doubles (NaN and signed zeros are not modelled). */
  function Min(x: real, y: real): real
  {
    if x <= y then x else y
  }

  /** The inner fold of `distance`: folds `min` over the distances from `a`
      to each of `others`, starting from `acc`. */
  function NearestFold(acc: real, a: NodeId, others: seq<NodeId>, dist: (NodeId, NodeId) -> real): (r: real)
    ensures r <= acc
    ensures forall b :: b in others ==> r <= dist(a, b)
    ensures r == acc || exists b :: b in others && r == dist(a, b)
    decreases |others|
  {
    if others == [] then acc
    else NearestFold(Min(acc, dist(a, others[0])), a, others[1..], dist)
  }

  /** The outer fold of `distance`: for each node of `mine`, in order, runs the
      inner fold seeded with the running minimum and keeps the smaller value. */
  function LinkageFold(acc: real, mine: seq<NodeId>, others: seq<NodeId>, dist: (NodeId, NodeId) -> real): (r: real)
    ensures r <= acc
    ensures forall a, b :: a in mine && b in others ==> r <= dist(a, b)
    ensures r == acc || exists a, b :: a in mine && b in others && r == dist(a, b)
    decreases |mine|
  {
    if mine == [] then acc
    else LinkageFold(Min(acc, NearestFold(acc, mine[0], others, dist)), mine[1..], others, dist)
  }

  /** The nodes of all `clusters` together. */
  function ElementsOf(clusters: seq<Cluster>): set<NodeId>
  {
    set c, n | c in clusters && n in c.elements :: n
  }

  class Cluster {
    /** The member nodes in insertion order, each once (a LinkedHashSet). */
    const elements: seq<NodeId>

    /** `Cluster(node)`: the cluster holding exactly `node`. */
    constructor Singleton(node: NodeId)
      ensures elements == [node]
    {
      elements := Add([], node);
    }

    /** `Cluster(nodes)`: adds every node of the collection, dropping repeats. */
    constructor FromNodes(nodes: seq<NodeId>)
      ensures Members(elements) == Members(nodes)
      ensures Distinct(elements)
    {
      elements := AddAll([], nodes);
    }

    /** `Cluster(clusters)`: the union of the member clusters' elements. */
    constructor FromClusters(clusters: seq<Cluster>)
      ensures Members(elements) == ElementsOf(clusters)
      ensures Distinct(elements)
    {
      // the set being filled; `this` cannot be read before construction ends
      var added: seq<NodeId> := [];
      var k := 0;
      while k < |clusters|
        invariant 0 <= k <= |clusters|
        invariant Members(added) == ElementsOf(clusters[..k])
        invariant Distinct(added)
      {
        added := AddAll(added, clusters[k].elements);
        assert clusters[..k + 1] == clusters[..k] + [clusters[k]];
        k := k + 1;
      }
      assert clusters[..k] == clusters;
      elements := added;
    }

    /** `distance`: the single-linkage distance, the smallest node distance
        between a member of this cluster and a member of `other`, folded from
        `MaxDouble`. */
    function Distance(other: Cluster, dist: (NodeId, NodeId) -> real): (r: real)
      ensures r <= MaxDouble
      ensures forall a, b :: a in elements && b in other.elements ==> r <= dist(a, b)
      ensures r == MaxDouble || exists a, b :: a in elements && b in other.elements && r == dist(a, b)
    {
      LinkageFold(MaxDouble, elements, other.elements, dist)
    }
  }

  /** A node distance that does not depend on the order of its arguments. */
  ghost predicate Symmetric(dist: (NodeId, NodeId) -> real)
  {
    forall a, b :: dist(a, b) == dist(b, a)
  }

  /** An empty cluster on either side leaves the seed untouched. */
  lemma DistanceToEmpty(x: Cluster, y: Cluster, dist: (NodeId, NodeId) -> real)
    requires x.elements == [] || y.elements == []
    ensures x.Distance(y, dist) == MaxDouble
  {
  }

  /** When some pair of nodes is within `MaxDouble`, the cluster distance is
      the distance of one such pair, the closest. */
  lemma {:induction false} DistanceIsAttained(x: Cluster, y: Cluster, dist: (NodeId, NodeId) -> real, a0: NodeId, b0: NodeId)
    requires a0 in x.elements && b0 in y.elements && dist(a0, b0) <= MaxDouble
    ensures exists a, b :: a in x.elements && b in y.elements && x.Distance(y, dist) == dist(a, b)
  {
    var r := x.Distance(y, dist);
    if r == MaxDouble {
      assert r <= dist(a0, b0);
      assert r == dist(a0, b0);
    }
  }

  /** Single linkage is symmetric when the node distance is. */
  lemma {:induction false} DistanceSymmetric(x: Cluster, y: Cluster, dist: (NodeId, NodeId) -> real)
    requires Symmetric(dist)
    ensures x.Distance(y, dist) == y.Distance(x, dist)
  {
    var rxy, ryx := x.Distance(y, dist), y.Distance(x, dist);
    assert ryx <= rxy by {
      if rxy != MaxDouble {
        var a, b :| a in x.elements && b in y.elements && rxy == dist(a, b);
        assert ryx <= dist(b, a);
      }
    }
    assert rxy <= ryx by {
      if ryx != MaxDouble {
        var b, a :| b in y.elements && a in x.elements && ryx == dist(b, a);
        assert rxy <= dist(a, b);
      }
    }
  }

  /** Between two singleton clusters the distance is the node distance. */
  lemma SingletonDistance(x: Cluster, y: Cluster, dist: (NodeId, NodeId) -> real, a: NodeId, b: NodeId)
    requires x.elements == [a] && y.elements == [b] && dist(a, b) <= MaxDouble
    ensures x.Distance(y, dist) == dist(a, b)
  {
    assert a in x.elements && b in y.elements;
  }
}
