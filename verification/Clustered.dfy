/** prism/config/topology/clustered.py: EMIXes in rings with shortcuts, one link per pair of rings.
    A link is its set of members; connection types and tags play no part. */
module Clustered {
  import opened Wrappers
  import opened Graphs
  import opened Modular

  type Link = set<Node>

  /** The number of links a node is a member of. */
  function Usage(links: seq<Link>, n: Node): nat {
    if links == [] then 0
    else Usage(links[..|links| - 1], n) + (if n in links[|links| - 1] then 1 else 0)
  }

  lemma UsageSnoc(links: seq<Link>, l: Link, n: Node)
    ensures Usage(links + [l], n) == Usage(links, n) + (if n in l then 1 else 0)
  {
    assert (links + [l])[..|links|] == links;
  }

  class NodeUsage {
    var links: seq<Link>
    var linkedPairs: set<Link>
    var nodeUsage: map<Node, nat>

    /** The counters are the degrees in the list of links, which has no duplicates. */
    ghost predicate Valid()
      reads this
    {
      && (forall l :: l in linkedPairs <==> l in links)
      && DistinctLinks(links)
      && (forall n :: Get(n) == Usage(links, n))
    }

    function Get(n: Node): nat
      reads this
    {
      if n in nodeUsage then nodeUsage[n] else 0
    }

    constructor ()
      ensures Valid() && links == []
    {
      links, linkedPairs, nodeUsage := [], {}, map[];
    }

    /** False stands for the ConfigError of a link from a node to itself. */
    method AddLink(n1: Node, n2: Node) returns (ok: bool)
      requires Valid()
      modifies this
      ensures Valid() && ok == (n1 != n2)
      ensures links == if n1 == n2 || {n1, n2} in old(links) then old(links) else old(links) + [{n1, n2}]
    {
      if n1 == n2 {
        return false;
      }
      if {n1, n2} in linkedPairs {
        return true;
      }
      var before := links;
      links := links + [{n1, n2}];
      linkedPairs := linkedPairs + {{n1, n2}};
      nodeUsage := nodeUsage[n1 := Get(n1) + 1];
      nodeUsage := nodeUsage[n2 := Get(n2) + 1];
      forall n ensures Get(n) == Usage(links, n) {
        UsageSnoc(before, {n1, n2}, n);
      }
      return true;
    }

    /** The first of minimal_nodes: None stands for the ValueError of an empty list. */
    method FirstMinimal(nodes: seq<Node>) returns (r: Option<Node>)
      requires Valid()
      ensures r.None? <==> nodes == []
      ensures r.Some? ==> exists i :: 0 <= i < |nodes| && nodes[i] == r.value && FirstLeast(links, nodes, i)
      ensures r.Some? ==> r.value in nodes && forall n :: n in nodes ==> Usage(links, r.value) <= Usage(links, n)
    {
      if nodes == [] {
        return None;
      }
      var best := 0;
      for i := 1 to |nodes|
        invariant best < i
        invariant forall k :: 0 <= k < best ==> Get(nodes[best]) < Get(nodes[k])
        invariant forall k :: 0 <= k < i ==> Get(nodes[best]) <= Get(nodes[k])
      {
        if Get(nodes[i]) < Get(nodes[best]) {
          best := i;
        }
      }
      forall k | 0 <= k < |nodes|
        ensures Usage(links, nodes[best]) <= Usage(links, nodes[k])
        ensures k < best ==> Usage(links, nodes[best]) < Usage(links, nodes[k])
      {
        assert Get(nodes[best]) <= Get(nodes[k]);
        assert k < best ==> Get(nodes[best]) < Get(nodes[k]);
      }
      assert FirstLeast(links, nodes, best);
      r := Some(nodes[best]);
    }
  }

  /** Nobody carries fewer links, and those before carry more. */
  ghost predicate FirstLeast(links: seq<Link>, nodes: seq<Node>, i: nat)
    requires i < |nodes|
  {
    && (forall k :: 0 <= k < |nodes| ==> Usage(links, nodes[i]) <= Usage(links, nodes[k]))
    && forall k :: 0 <= k < i ==> Usage(links, nodes[i]) < Usage(links, nodes[k])
  }

  // How many clusters

  /** ceil(sqrt(n)): the least number whose square is at least n. */
  function CeilSqrt(n: nat): (k: nat)
    ensures k * k >= n && (k > 0 ==> (k - 1) * (k - 1) < n)
  {
    SqrtFrom(n, 0)
  }

  function SqrtFrom(n: nat, k: nat): (r: nat)
    requires k > 0 ==> (k - 1) * (k - 1) < n
    ensures r * r >= n && (r > 0 ==> (r - 1) * (r - 1) < n)
    decreases if n > k then n - k else 0
  {
    var square := k * k;
    assert square >= k by {
      if k > 0 {
        MulAtLeast(k, k);
      }
    }
    if square >= n then k else SqrtFrom(n, k + 1)
  }

  function CeilDiv(a: nat, b: nat): nat
    requires b > 0
  {
    (a + b - 1) / b
  }

  /** None stands for the ZeroDivisionError without EMIXes. */
  function DecideClusterCount(n: nat): (r: Option<nat>)
    ensures r.None? <==> n == 0
    ensures r.Some? ==> 1 <= r.value <= n
  {
    var per := CeilSqrt(n);
    if n == 0 then None else
      assert per > 0;
      CountBounds(n, per);
      Some(CeilDiv(n, per))
  }

  lemma CountBounds(n: nat, per: nat)
    requires n > 0 && per > 0
    ensures 1 <= CeilDiv(n, per) <= n
  {
    var q, r := CeilDiv(n, per), (n + per - 1) % per;
    assert n + per - 1 == per * q + r;
    if q == 0 {
      assert false;
    }
    ProductExceeds(per, n, q);
  }

  lemma ProductExceeds(per: nat, n: nat, q: nat)
    requires n > 0 && per > 0
    ensures q > n ==> per * q >= n + per
  {
    MulAtLeast(q - n, per);
    MulAtLeast(per, n);
    assert per * q == n * per + (q - n) * per;
  }

  lemma CeilDivBounds(n: nat, per: nat)
    requires n > 0 && per > 0
    ensures per * CeilDiv(n, per) >= n > per * (CeilDiv(n, per) - 1)
  {
    var q, r := CeilDiv(n, per), (n + per - 1) % per;
    assert n + per - 1 == per * q + r;
    assert per * (q - 1) == per * q - per;
  }

  lemma SmallerFactor(a: nat, b: nat, c: nat)
    requires a * b < a * c
    ensures b < c
  {
  }

  // Splitting into clusters

  function Flatten(clusters: seq<seq<Node>>): seq<Node> {
    if clusters == [] then [] else Flatten(clusters[..|clusters| - 1]) + clusters[|clusters| - 1]
  }

  /** The first n mod count clusters take one node more. */
  function SizeOf(n: nat, count: nat, i: nat): nat
    requires count > 0
  {
    n / count + if i < n % count then 1 else 0
  }

  /** Where cluster i starts. */
  function StartOf(n: nat, count: nat, i: nat): nat
    requires count > 0
  {
    if i == 0 then 0 else StartOf(n, count, i - 1) + SizeOf(n, count, i - 1)
  }

  lemma OneTimeMore(i: nat, q: nat)
    requires i > 0
    ensures i * q == (i - 1) * q + q
  {
  }

  lemma QuotientAndRest(n: nat, count: nat)
    requires count > 0
    ensures n == count * (n / count) + n % count
  {
  }

  lemma {:induction false} StartFormula(n: nat, count: nat, i: nat)
    requires 0 < count && i <= count
    ensures StartOf(n, count, i) == i * (n / count) + (if i < n % count then i else n % count)
    ensures i == count ==> StartOf(n, count, i) == n
  {
    QuotientAndRest(n, count);
    if i > 0 {
      StartFormula(n, count, i - 1);
      OneTimeMore(i, n / count);
    }
  }

  lemma {:induction false} StartMonotone(n: nat, count: nat, i: nat, j: nat)
    requires 0 < count && i <= j <= count
    ensures StartOf(n, count, i) <= StartOf(n, count, j)
    decreases j - i
  {
    if i < j {
      StartMonotone(n, count, i + 1, j);
    }
  }

  /** Room for all means that no even share exceeds what there is room for. */
  lemma EvenShare(n: nat, count: nat, per: nat, i: nat)
    requires count > 0 && n <= per * count
    ensures SizeOf(n, count, i) <= per
  {
    var q := n / count;
    QuotientAndRest(n, count);
    if q > per {
      MulMonotone(per + 1, q, count);
      assert false;
    }
    if q == per {
      assert n % count == 0;
    }
  }

  /** Neither the number of clusters nor any cluster exceeds the root of the number of EMIXes,
      rounded up; and with one cluster less they could not all be placed. */
  lemma ClustersNearSquare(n: nat, i: nat)
    requires n > 0
    ensures var count, per := DecideClusterCount(n).value, CeilSqrt(n);
            count <= per && SizeOf(n, count, i) <= per && per * (count - 1) < n
  {
    var count, per := DecideClusterCount(n).value, CeilSqrt(n);
    CeilDivBounds(n, per);
    SmallerFactor(per, count - 1, per);
    EvenShare(n, count, per, i);
  }

  method ClusterEmixes(emixes: seq<Node>, count: nat) returns (clusters: seq<seq<Node>>)
    requires count > 0
    ensures |clusters| == count && Flatten(clusters) == emixes
    ensures forall i :: 0 <= i < count ==> |clusters[i]| == SizeOf(|emixes|, count, i)
    ensures forall i, j :: 0 <= i < j < count ==> |clusters[j]| <= |clusters[i]| <= |clusters[j]| + 1
  {
    clusters := [];
    var next := 0;
    StartFormula(|emixes|, count, count);
    for i := 0 to count
      invariant |clusters| == i && next == StartOf(|emixes|, count, i) <= |emixes|
      invariant Flatten(clusters) == emixes[..next]
      invariant forall k :: 0 <= k < i ==> |clusters[k]| == SizeOf(|emixes|, count, k)
    {
      var size := |emixes| / count;
      if i < |emixes| % count {
        size := size + 1;
      }
      StartMonotone(|emixes|, count, i + 1, count);
      var cluster := emixes[next..next + size];
      assert (clusters + [cluster])[..i] == clusters;
      clusters := clusters + [cluster];
      assert emixes[..next] + cluster == emixes[..next + size];
      next := next + size;
    }
    assert emixes[..|emixes|] == emixes;
  }

  ghost predicate Distinct(nodes: seq<Node>) {
    forall i, j :: 0 <= i < j < |nodes| ==> nodes[i] != nodes[j]
  }

  /** Nonempty clusters of distinct nodes that share none. */
  ghost predicate Partition(clusters: seq<seq<Node>>) {
    && (forall i :: 0 <= i < |clusters| ==> clusters[i] != [] && Distinct(clusters[i]))
    && forall i, j, n :: 0 <= i < j < |clusters| && n in clusters[i] ==> n !in clusters[j]
  }

  lemma {:induction false} FlattenMembers(clusters: seq<seq<Node>>, n: Node)
    ensures n in Flatten(clusters) <==> exists i :: 0 <= i < |clusters| && n in clusters[i]
  {
    if clusters != [] {
      FlattenMembers(clusters[..|clusters| - 1], n);
      if i :| 0 <= i < |clusters| && n in clusters[i] && i < |clusters| - 1 {
        assert n in clusters[..|clusters| - 1][i];
      }
    }
  }

  lemma {:induction false} DistinctPartition(clusters: seq<seq<Node>>)
    requires Distinct(Flatten(clusters)) && forall i :: 0 <= i < |clusters| ==> clusters[i] != []
    ensures Partition(clusters)
  {
    if clusters != [] {
      var front, last := clusters[..|clusters| - 1], clusters[|clusters| - 1];
      var head := Flatten(front);
      assert Distinct(head) by {
        forall i, j | 0 <= i < j < |head| ensures head[i] != head[j] {
          assert Flatten(clusters)[i] != Flatten(clusters)[j];
        }
      }
      DistinctPartition(front);
      assert Distinct(last) by {
        forall i, j | 0 <= i < j < |last| ensures last[i] != last[j] {
          assert Flatten(clusters)[|head| + i] != Flatten(clusters)[|head| + j];
        }
      }
      forall i, j, n | 0 <= i < j < |clusters| && n in clusters[i] ensures n !in clusters[j] {
        if j == |clusters| - 1 {
          FlattenMembers(front, n);
          assert n in front[i];
          var k :| 0 <= k < |head| && head[k] == n;
          forall l | 0 <= l < |last| ensures last[l] != n {
            assert Flatten(clusters)[k] != Flatten(clusters)[|head| + l];
          }
        } else {
          assert front[i] == clusters[i] && front[j] == clusters[j];
        }
      }
    }
  }

  // Links within a cluster

  /** Going round a ring of n nodes. */
  function Around(i: nat, step: nat, n: nat): (k: nat)
    requires i < n && step <= n
    ensures k < n
  {
    if i + step < n then i + step else i + step - n
  }

  lemma AroundIsMod(i: nat, step: nat, n: nat)
    requires i < n && step <= n
    ensures (i + step) % n == Around(i, step, n)
  {
    SmallMod(Around(i, step, n), n);
    if i + step >= n {
      CongIntro(i + step, i + step - n, 1, n);
    }
  }

  /** The link from node i to the one some steps further round the ring. */
  function RingLink(cluster: seq<Node>, i: nat, step: nat): Link
    requires i < |cluster| && step <= |cluster|
  {
    {cluster[i], cluster[Around(i, step, |cluster|)]}
  }

  ghost predicate HasRing(links: seq<Link>, cluster: seq<Node>) {
    forall k :: 0 <= k < |cluster| && |cluster| > 1 ==> RingLink(cluster, k, 1) in links
  }

  /** The length of the shortcuts. */
  function Skip(cluster: seq<Node>): (skip: nat)
    ensures skip <= |cluster|
  {
    CeilDiv(|cluster|, 3)
  }

  /** Three shortcuts go round the ring, and would not if each were one node shorter. */
  lemma SkipIsThird(cluster: seq<Node>)
    ensures 3 * Skip(cluster) >= |cluster| && (cluster != [] ==> 3 * (Skip(cluster) - 1) < |cluster|)
  {
  }

  ghost predicate LinkedFrom(cluster: seq<Node>, l: Link, i: nat) {
    i < |cluster| && |l| == 2 && (l == RingLink(cluster, i, 1) || l == RingLink(cluster, i, Skip(cluster)))
  }

  /** Links to the next node or a third of the ring ahead, never from a node to itself. */
  ghost predicate OnRing(cluster: seq<Node>, l: Link) {
    exists i: nat :: LinkedFrom(cluster, l, i)
  }

  /** The links from the first n nodes of the ring. */
  ghost predicate RingUpTo(links: seq<Link>, cluster: seq<Node>, n: nat) {
    forall l :: l in links <==> exists i: nat :: i < n && LinkedFrom(cluster, l, i)
  }

  lemma PairSize(a: Node, b: Node)
    ensures |{a, b}| == if a == b then 1 else 2
  {
    if a == b {
      assert {a, b} == {a};
    }
  }

  method ClusterInternalSkipRing(cluster: seq<Node>) returns (links: seq<Link>)
    requires Distinct(cluster)
    ensures forall l :: l in links <==> OnRing(cluster, l)
    ensures HasRing(links, cluster)
    ensures DistinctLinks(links)
    ensures forall n :: Usage(links, n) <= 4
  {
    var usage := new NodeUsage();
    for i := 0 to |cluster|
      invariant usage.Valid() && fresh(usage) && RingUpTo(usage.links, cluster, i)
    {
      ghost var before := usage.links;
      AddRingLink(usage, cluster, i, 1);
      AddRingLink(usage, cluster, i, Skip(cluster));
      RingGrows(before, usage.links, cluster, i);
    }
    links := usage.links;
    RingComplete(links, cluster);
    forall n ensures Usage(links, n) <= 4 {
      FanOut(links, cluster, n);
    }
  }

  /** One of the two conditional links of the loop body. */
  method AddRingLink(usage: NodeUsage, cluster: seq<Node>, i: nat, step: nat)
    requires usage.Valid() && i < |cluster| && step <= |cluster|
    modifies usage
    ensures usage.Valid()
    ensures forall l :: l in usage.links <==> l in old(usage.links) || (|l| == 2 && l == RingLink(cluster, i, step))
  {
    AroundIsMod(i, step, |cluster|);
    var node, other := cluster[i], cluster[(i + step) % |cluster|];
    PairSize(node, other);
    if node != other {
      var _ := usage.AddLink(node, other);
    }
  }

  lemma RingGrows(before: seq<Link>, after: seq<Link>, cluster: seq<Node>, i: nat)
    requires RingUpTo(before, cluster, i)
    requires forall l :: l in after <==> l in before || LinkedFrom(cluster, l, i)
    ensures RingUpTo(after, cluster, i + 1)
  {
    forall l ensures l in after <==> exists k: nat :: k < i + 1 && LinkedFrom(cluster, l, k) {
      if l in before {
        var k: nat :| k < i && LinkedFrom(cluster, l, k);
        assert k < i + 1;
      }
    }
  }

  lemma RingComplete(links: seq<Link>, cluster: seq<Node>)
    requires Distinct(cluster) && forall l :: OnRing(cluster, l) ==> l in links
    ensures HasRing(links, cluster)
  {
    forall k | 0 <= k < |cluster| && |cluster| > 1 ensures RingLink(cluster, k, 1) in links {
      PairSize(cluster[k], cluster[Around(k, 1, |cluster|)]);
      assert LinkedFrom(cluster, RingLink(cluster, k, 1), k);
    }
  }

  ghost predicate DistinctLinks(links: seq<Link>) {
    forall i, j :: 0 <= i < j < |links| ==> links[i] != links[j]
  }

  /** Without duplicates, a node has at most as many links as there are links it may be on. */
  lemma {:induction false} UsageBound(links: seq<Link>, n: Node, may: set<Link>)
    requires DistinctLinks(links) && forall l :: l in links && n in l ==> l in may
    ensures Usage(links, n) <= |may|
  {
    if links != [] {
      var front, last := links[..|links| - 1], links[|links| - 1];
      if n in last {
        assert |may| == |may - {last}| + 1;
        UsageBound(front, n, may - {last});
      } else {
        UsageBound(front, n, may);
      }
    }
  }

  /** The links of a ring that node k may be on: two forward and two back. */
  function AtMostFour(cluster: seq<Node>, k: nat): (may: set<Link>)
    requires k < |cluster|
    ensures |may| <= 4
  {
    {RingLink(cluster, k, 1)} + {RingLink(cluster, k, Skip(cluster))} +
    {RingLink(cluster, Back(k, 1, |cluster|), 1)} + {RingLink(cluster, Back(k, Skip(cluster), |cluster|), Skip(cluster))}
  }

  /** Where a step forward leads to k. */
  function Back(k: nat, step: nat, n: nat): (i: nat)
    requires k < n && step <= n
    ensures i < n && Around(i, step, n) == k
  {
    if k >= step then k - step else k + n - step
  }

  lemma MemberIsEither(cluster: seq<Node>, i: nat, step: nat, k: nat)
    requires Distinct(cluster) && i < |cluster| && k < |cluster| && step <= |cluster|
    requires cluster[k] in RingLink(cluster, i, step)
    ensures i == k || i == Back(k, step, |cluster|)
  {
  }

  /** Shortcuts included, no node of a ring has more than four links. */
  lemma FanOut(links: seq<Link>, cluster: seq<Node>, n: Node)
    requires Distinct(cluster) && DistinctLinks(links) && forall l :: l in links ==> OnRing(cluster, l)
    ensures Usage(links, n) <= 4
  {
    if n in cluster {
      var k :| 0 <= k < |cluster| && cluster[k] == n;
      forall l | l in links && n in l ensures l in AtMostFour(cluster, k) {
        var i: nat :| LinkedFrom(cluster, l, i);
        if l == RingLink(cluster, i, 1) {
          MemberIsEither(cluster, i, 1, k);
        } else {
          MemberIsEither(cluster, i, Skip(cluster), k);
        }
      }
      UsageBound(links, n, AtMostFour(cluster, k));
    } else {
      forall l | l in links ensures n !in l {
        var i: nat :| LinkedFrom(cluster, l, i);
      }
      UsageBound(links, n, {});
    }
  }

  // Links between clusters

  /** The pairs in the order in which the two loops visit them, up to source i and target j. */
  function PairsUpTo(k: nat, i: nat, j: nat): (pairs: seq<(nat, nat)>)
    requires i < k && i < j <= k
    decreases i, j
  {
    if j > i + 1 then PairsUpTo(k, i, j - 1) + [(i, j - 1)]
    else if i == 0 then [] else PairsUpTo(k, i - 1, k)
  }

  function AllPairs(k: nat): seq<(nat, nat)> {
    PairsFrom(k, k)
  }

  lemma {:induction false} PairsUpToExact(k: nat, i: nat, j: nat)
    requires i < k && i < j <= k
    ensures forall a: nat, b: nat :: (a, b) in PairsUpTo(k, i, j) <==> a < b < k && (a < i || (a == i && b < j))
    ensures forall s, t :: 0 <= s < t < |PairsUpTo(k, i, j)| ==> PairsUpTo(k, i, j)[s] != PairsUpTo(k, i, j)[t]
    decreases i, j
  {
    if j > i + 1 {
      PairsUpToExact(k, i, j - 1);
      assert (i, j - 1) !in PairsUpTo(k, i, j - 1);
    } else if i > 0 {
      PairsUpToExact(k, i - 1, k);
    }
  }

  /** The link has one member in either cluster. */
  ghost predicate Joins(l: Link, clusters: seq<seq<Node>>, i: nat, j: nat)
    requires i < |clusters| && j < |clusters|
  {
    exists a, b :: a in clusters[i] && b in clusters[j] && l == {a, b}
  }

  /** The links are one for each pair, in order. */
  ghost predicate OneEach(links: seq<Link>, clusters: seq<seq<Node>>, pairs: seq<(nat, nat)>) {
    |links| == |pairs| && forall t :: 0 <= t < |pairs| ==>
      pairs[t].0 < pairs[t].1 < |clusters| && Joins(links[t], clusters, pairs[t].0, pairs[t].1)
  }

  /** Nodes of one cluster differ by at most one in the links they carry. */
  ghost predicate Balanced(links: seq<Link>, nodes: seq<Node>) {
    forall n, m :: n in nodes && m in nodes ==> Usage(links, n) <= Usage(links, m) + 1
  }

  lemma JoinsDifferentPairs(clusters: seq<seq<Node>>, l: Link, i: nat, j: nat, i': nat, j': nat)
    requires Partition(clusters) && i < j < |clusters| && i' < j' < |clusters|
    requires Joins(l, clusters, i, j) && Joins(l, clusters, i', j')
    ensures i == i' && j == j'
  {
    var a, b :| a in clusters[i] && b in clusters[j] && l == {a, b};
    var c, d :| c in clusters[i'] && d in clusters[j'] && l == {c, d};
    assert c in {a, b} && d in {a, b} && a in {c, d} && b in {c, d};
  }

  lemma AddedStaysBalanced(clusters: seq<seq<Node>>, links: seq<Link>, i: nat, j: nat, a: Node, b: Node)
    requires Partition(clusters) && i < j < |clusters|
    requires forall k :: 0 <= k < |clusters| ==> Balanced(links, clusters[k])
    requires a in clusters[i] && forall n :: n in clusters[i] ==> Usage(links, a) <= Usage(links, n)
    requires b in clusters[j] && forall n :: n in clusters[j] ==> Usage(links, b) <= Usage(links, n)
    ensures forall k :: 0 <= k < |clusters| ==> Balanced(links + [{a, b}], clusters[k])
  {
    forall k | 0 <= k < |clusters| ensures Balanced(links + [{a, b}], clusters[k]) {
      forall n, m | n in clusters[k] && m in clusters[k]
        ensures Usage(links + [{a, b}], n) <= Usage(links + [{a, b}], m) + 1
      {
        UsageSnoc(links, {a, b}, n);
        UsageSnoc(links, {a, b}, m);
        assert Usage(links, n) <= Usage(links, m) + 1;
      }
    }
  }

  /** The state of the two loops: one link for each visited pair, the load spread evenly. */
  ghost predicate Progress(links: seq<Link>, clusters: seq<seq<Node>>, pairs: seq<(nat, nat)>) {
    OneEach(links, clusters, pairs) && forall k :: 0 <= k < |clusters| ==> Balanced(links, clusters[k])
  }

  /** The pairs of the first i sources. */
  function PairsFrom(k: nat, i: nat): seq<(nat, nat)>
    requires i <= k
  {
    if i == 0 then [] else PairsUpTo(k, i - 1, k)
  }

  method InterClusterLinks(clusters: seq<seq<Node>>) returns (links: seq<Link>)
    requires Partition(clusters)
    ensures Progress(links, clusters, AllPairs(|clusters|))
  {
    var usage := new NodeUsage();
    for i := 0 to |clusters|
      invariant usage.Valid() && fresh(usage) && Progress(usage.links, clusters, PairsFrom(|clusters|, i))
    {
      LinkSource(usage, clusters, i);
    }
    links := usage.links;
  }

  /** The inner of the two loops. */
  method LinkSource(usage: NodeUsage, clusters: seq<seq<Node>>, i: nat)
    requires usage.Valid() && Partition(clusters) && i < |clusters|
    requires Progress(usage.links, clusters, PairsFrom(|clusters|, i))
    modifies usage
    ensures usage.Valid() && Progress(usage.links, clusters, PairsFrom(|clusters|, i + 1))
  {
    for j := i + 1 to |clusters|
      invariant usage.Valid() && Progress(usage.links, clusters, PairsUpTo(|clusters|, i, j))
    {
      LinkPair(usage, clusters, i, j);
    }
  }

  /** The body of the loops. */
  method LinkPair(usage: NodeUsage, clusters: seq<seq<Node>>, i: nat, j: nat)
    requires usage.Valid() && Partition(clusters) && i < j < |clusters|
    requires Progress(usage.links, clusters, PairsUpTo(|clusters|, i, j))
    modifies usage
    ensures usage.Valid() && Progress(usage.links, clusters, PairsUpTo(|clusters|, i, j + 1))
  {
    var source := usage.FirstMinimal(clusters[i]);
    var target := usage.FirstMinimal(clusters[j]);
    var a, b := source.value, target.value;
    NotYetLinked(clusters, usage.links, i, j, a, b);
    AddedStaysBalanced(clusters, usage.links, i, j, a, b);
    ghost var before, pairs := usage.links, PairsUpTo(|clusters|, i, j);
    var _ := usage.AddLink(a, b);
    assert OneEach(usage.links, clusters, pairs + [(i, j)]) by {
      assert Joins({a, b}, clusters, i, j);
      assert forall t :: 0 <= t < |before| ==> usage.links[t] == before[t] && (pairs + [(i, j)])[t] == pairs[t];
    }
  }

  /** A new pair of clusters gets a new link. */
  lemma NotYetLinked(clusters: seq<seq<Node>>, links: seq<Link>, i: nat, j: nat, a: Node, b: Node)
    requires Partition(clusters) && i < j < |clusters| && a in clusters[i] && b in clusters[j]
    requires OneEach(links, clusters, PairsUpTo(|clusters|, i, j))
    ensures a != b && {a, b} !in links
  {
    assert Joins({a, b}, clusters, i, j);
    PairsUpToExact(|clusters|, i, j);
    forall t | 0 <= t < |links| ensures links[t] != {a, b} {
      var pair := PairsUpTo(|clusters|, i, j)[t];
      assert (pair.0, pair.1) in PairsUpTo(|clusters|, i, j);
      if links[t] == {a, b} {
        JoinsDifferentPairs(clusters, {a, b}, pair.0, pair.1, i, j);
      }
    }
  }

  /** Every pair of clusters has exactly one link, and every link joins some pair. */
  lemma ExactlyOneLink(links: seq<Link>, clusters: seq<seq<Node>>, i: nat, j: nat)
    requires Partition(clusters) && OneEach(links, clusters, AllPairs(|clusters|)) && i < j < |clusters|
    ensures exists t :: 0 <= t < |links| && Joins(links[t], clusters, i, j) &&
              forall s :: 0 <= s < |links| && Joins(links[s], clusters, i, j) ==> s == t
  {
    var pairs := AllPairs(|clusters|);
    PairsUpToExact(|clusters|, |clusters| - 1, |clusters|);
    assert (i, j) in pairs;
    var t :| 0 <= t < |pairs| && pairs[t] == (i, j);
    forall s | 0 <= s < |links| && Joins(links[s], clusters, i, j) ensures s == t {
      JoinsDifferentPairs(clusters, links[s], pairs[s].0, pairs[s].1, i, j);
    }
  }

  // Connectivity

  ghost function LinkGraph(links: seq<Link>): Graph {
    set l, a, b | l in links && a in l && b in l :: (a, b)
  }

  ghost predicate Connected(links: seq<Link>, a: Node, b: Node) {
    exists k: nat :: Walk(LinkGraph(links), a, b, k)
  }

  lemma {:induction false} ConnectedFront(links: seq<Link>, a: Node, b: Node, c: Node, k: nat)
    requires Connected(links, a, b) && Walk(LinkGraph(links), b, c, k)
    ensures Connected(links, a, c)
    decreases k
  {
    if k > 0 {
      var d: Node :| Walk(LinkGraph(links), b, d, k - 1) && (d, c) in LinkGraph(links);
      ConnectedFront(links, a, b, d, k - 1);
      var l: nat :| Walk(LinkGraph(links), a, d, l);
      WalkStep(LinkGraph(links), a, d, c, l);
    }
  }

  lemma ConnectedTransitive(links: seq<Link>, a: Node, b: Node, c: Node)
    requires Connected(links, a, b) && Connected(links, b, c)
    ensures Connected(links, a, c)
  {
    var k: nat :| Walk(LinkGraph(links), b, c, k);
    ConnectedFront(links, a, b, c, k);
  }

  lemma {:induction false} WalkBack(links: seq<Link>, a: Node, b: Node, k: nat)
    requires Walk(LinkGraph(links), a, b, k)
    ensures Walk(LinkGraph(links), b, a, k)
    decreases k
  {
    if k > 0 {
      var c: Node :| Walk(LinkGraph(links), a, c, k - 1) && (c, b) in LinkGraph(links);
      WalkBack(links, a, c, k - 1);
      assert (b, c) in LinkGraph(links);
      WalkFront(LinkGraph(links), b, c, a, k - 1);
    }
  }

  lemma ConnectedSymmetric(links: seq<Link>, a: Node, b: Node)
    requires Connected(links, a, b)
    ensures Connected(links, b, a)
  {
    var k: nat :| Walk(LinkGraph(links), a, b, k);
    WalkBack(links, a, b, k);
  }

  lemma LinkConnects(links: seq<Link>, a: Node, b: Node)
    requires {a, b} in links
    ensures Connected(links, a, b)
  {
    assert (a, b) in LinkGraph(links);
    assert Walk(LinkGraph(links), a, a, 0);
    WalkStep(LinkGraph(links), a, a, b, 0);
  }

  /** A ring connects each of its nodes to the first. */
  lemma {:induction false} RingConnects(links: seq<Link>, cluster: seq<Node>, i: nat)
    requires i < |cluster| && HasRing(links, cluster)
    ensures Connected(links, cluster[0], cluster[i])
  {
    if i == 0 {
      assert Walk(LinkGraph(links), cluster[0], cluster[0], 0);
    } else {
      RingConnects(links, cluster, i - 1);
      assert RingLink(cluster, i - 1, 1) == {cluster[i - 1], cluster[i]};
      LinkConnects(links, cluster[i - 1], cluster[i]);
      ConnectedTransitive(links, cluster[0], cluster[i - 1], cluster[i]);
    }
  }

  ghost predicate Bridged(links: seq<Link>, clusters: seq<seq<Node>>, i: nat, j: nat)
    requires i < |clusters| && j < |clusters|
  {
    exists l :: l in links && Joins(l, clusters, i, j)
  }

  /** All rings and a link for each pair of clusters are among the links. */
  ghost predicate HasRingsAndBridges(links: seq<Link>, clusters: seq<seq<Node>>) {
    && (forall c :: 0 <= c < |clusters| ==> HasRing(links, clusters[c]))
    && forall i, j :: 0 <= i < j < |clusters| ==> Bridged(links, clusters, i, j)
  }

  lemma ClusterConnects(links: seq<Link>, cluster: seq<Node>, a: Node, b: Node)
    requires HasRing(links, cluster) && a in cluster && b in cluster
    ensures Connected(links, a, b)
  {
    var i :| 0 <= i < |cluster| && cluster[i] == a;
    var j :| 0 <= j < |cluster| && cluster[j] == b;
    RingConnects(links, cluster, i);
    RingConnects(links, cluster, j);
    ConnectedSymmetric(links, cluster[0], a);
    ConnectedTransitive(links, a, cluster[0], b);
  }

  lemma BridgeConnects(links: seq<Link>, clusters: seq<seq<Node>>, i: nat, j: nat, a: Node, b: Node)
    requires HasRingsAndBridges(links, clusters) && i < j < |clusters| && a in clusters[i] && b in clusters[j]
    ensures Connected(links, a, b)
  {
    assert Bridged(links, clusters, i, j);
    var l :| l in links && Joins(l, clusters, i, j);
    var c, d :| c in clusters[i] && d in clusters[j] && l == {c, d};
    LinkConnects(links, c, d);
    ClusterConnects(links, clusters[i], a, c);
    ClusterConnects(links, clusters[j], d, b);
    ConnectedTransitive(links, a, c, d);
    ConnectedTransitive(links, a, d, b);
  }

  lemma AllConnected(links: seq<Link>, clusters: seq<seq<Node>>, a: Node, b: Node)
    requires HasRingsAndBridges(links, clusters) && a in Flatten(clusters) && b in Flatten(clusters)
    ensures Connected(links, a, b)
  {
    FlattenMembers(clusters, a);
    FlattenMembers(clusters, b);
    var i :| 0 <= i < |clusters| && a in clusters[i];
    var j :| 0 <= j < |clusters| && b in clusters[j];
    if i == j {
      ClusterConnects(links, clusters[i], a, b);
    } else if i < j {
      BridgeConnects(links, clusters, i, j, a, b);
    } else {
      BridgeConnects(links, clusters, j, i, b, a);
      ConnectedSymmetric(links, b, a);
    }
  }

  /** The EMIX part of clustered, with the default number of clusters. */
  method ClusteredEmixes(emixes: seq<Node>) returns (clusters: seq<seq<Node>>, internal: seq<Link>, bridges: seq<Link>)
    requires emixes != [] && Distinct(emixes)
    ensures Some(|clusters|) == DecideClusterCount(|emixes|) && Flatten(clusters) == emixes && Partition(clusters)
    ensures forall i, j :: 0 <= i < |clusters| && 0 <= j < |clusters| ==> |clusters[i]| <= |clusters[j]| + 1
    ensures forall l :: l in internal <==> exists c :: 0 <= c < |clusters| && OnRing(clusters[c], l)
    ensures Progress(bridges, clusters, AllPairs(|clusters|))
    ensures HasRingsAndBridges(internal + bridges, clusters)
    ensures forall a, b :: a in emixes && b in emixes ==> Connected(internal + bridges, a, b)
  {
    var count := DecideClusterCount(|emixes|).value;
    clusters := ClusterEmixes(emixes, count);
    EnoughForAll(|emixes|, count);
    DistinctPartition(clusters);
    internal := AllRings(clusters);
    bridges := InterClusterLinks(clusters);
    forall i, j | 0 <= i < j < |clusters| ensures Bridged(internal + bridges, clusters, i, j) {
      ExactlyOneLink(bridges, clusters, i, j);
    }
    forall a, b | a in emixes && b in emixes ensures Connected(internal + bridges, a, b) {
      AllConnected(internal + bridges, clusters, a, b);
    }
  }

  method AllRings(clusters: seq<seq<Node>>) returns (links: seq<Link>)
    requires Partition(clusters)
    ensures forall c :: 0 <= c < |clusters| ==> HasRing(links, clusters[c])
    ensures forall l :: l in links <==> exists c :: 0 <= c < |clusters| && OnRing(clusters[c], l)
  {
    links := [];
    for c := 0 to |clusters|
      invariant forall k :: 0 <= k < c ==> HasRing(links, clusters[k])
      invariant forall l :: l in links <==> exists k :: 0 <= k < c && OnRing(clusters[k], l)
    {
      var ring := ClusterInternalSkipRing(clusters[c]);
      links := links + ring;
    }
  }

  lemma EnoughForAll(n: nat, count: nat)
    requires 1 <= count <= n
    ensures forall i: nat :: SizeOf(n, count, i) >= 1
  {
    var q := n / count;
    assert n == count * q + n % count;
    if q == 0 {
      assert false;
    }
  }
}
