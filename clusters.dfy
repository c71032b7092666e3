/** The two ways a run's outcome becomes a list of clusters of vertex ids:
    `large_graph_parse_result` for the destructive variants, which read the
    clusters off the winners and what they absorbed, and
    `large_parse_retain_result` for the retentive ones, which take the
    connected components of the graph made of the hierarchy pairs. */
module Clusters {
  import opened Lists
  import opened Aggregation

  /** The ids of `xs` that are not excluded, in their order. */
  function Kept(xs: seq<nat>, excluded: set<nat>): (r: seq<nat>)
    ensures forall x :: x in r <==> x in xs && x !in excluded
    ensures |r| <= |xs|
  {
    if xs == [] then []
    else
      var last := xs[|xs| - 1];
      assert xs == xs[..|xs| - 1] + [last];
      Kept(xs[..|xs| - 1], excluded) + (if last in excluded then [] else [last])
  }

  /** The cluster read off one centroid: its own id unless excluded, then
      the ids it absorbed that are not excluded. */
  function ClusterOf(centroid: nat, absorbed: seq<nat>, excluded: set<nat>): seq<nat>
  {
    Kept([centroid] + absorbed, excluded)
  }

  /** What `large_graph_parse_result` leaves in `large_result`: one cluster
      per centroid, in the order of `centroids`, empty clusters left out.
      `absorbed[i]` is the absorbed list of `centroids[i]`. */
  function ParseSpec(centroids: seq<nat>, absorbed: seq<seq<nat>>, excluded: set<nat>): seq<seq<nat>>
    requires |absorbed| == |centroids|
  {
    if centroids == [] then []
    else
      var k := |centroids| - 1;
      var rest := ParseSpec(centroids[..k], absorbed[..k], excluded);
      var c := ClusterOf(centroids[k], absorbed[k], excluded);
      if c == [] then rest else rest + [c]
  }

  /** The loops of `large_graph_parse_result` (graph.cpp:1591-1613). */
  method ParseResult(centroids: seq<nat>, absorbed: seq<seq<nat>>, excluded: set<nat>)
      returns (clusters: seq<seq<nat>>)
    requires |absorbed| == |centroids|
    ensures clusters == ParseSpec(centroids, absorbed, excluded)
  {
    clusters := [];
    var i := 0;
    while i < |centroids|
      invariant 0 <= i <= |centroids|
      invariant clusters == ParseSpec(centroids[..i], absorbed[..i], excluded)
    {
      var c := CentroidCluster(centroids[i], absorbed[i], excluded);
      if |c| > 0 {
        clusters := clusters + [c];
      }
      assert centroids[..i + 1][..i] == centroids[..i];
      assert absorbed[..i + 1][..i] == absorbed[..i];
      i := i + 1;
    }
    assert centroids[..i] == centroids && absorbed[..i] == absorbed;
  }

  /** The body of that loop for one centroid (graph.cpp:1594-1608). */
  method CentroidCluster(vi: nat, absorbed: seq<nat>, excluded: set<nat>) returns (c: seq<nat>)
    ensures c == ClusterOf(vi, absorbed, excluded)
  {
    c := [];
    if vi !in excluded {
      c := c + [vi];
    }
    var xs := [vi] + absorbed;
    assert xs[..1] == [vi];
    assert Kept(xs[..1], excluded) == c by {
      assert xs[..1][..0] == [];
    }
    var j := 0;
    while j < |absorbed|
      invariant 0 <= j <= |absorbed|
      invariant c == Kept(xs[..j + 1], excluded)
    {
      var ui := absorbed[j];
      if ui !in excluded {
        c := c + [ui];
      }
      assert xs[..j + 2][..j + 1] == xs[..j + 1];
      j := j + 1;
    }
    assert xs[..j + 1] == xs;
  }

  /** No cluster is empty, and no excluded id appears in any of them. */
  lemma {:induction false} ParseNoEmptyNoExcluded(centroids: seq<nat>, absorbed: seq<seq<nat>>, excluded: set<nat>,
                                                   r: seq<seq<nat>>)
    requires |absorbed| == |centroids| && r == ParseSpec(centroids, absorbed, excluded)
    ensures forall k :: 0 <= k < |r| ==> r[k] != []
    ensures forall k, x :: 0 <= k < |r| && x in r[k] ==> x !in excluded
  {
    if centroids != [] {
      var n := |centroids| - 1;
      var rest := ParseSpec(centroids[..n], absorbed[..n], excluded);
      ParseNoEmptyNoExcluded(centroids[..n], absorbed[..n], excluded, rest);
      var c := ClusterOf(centroids[n], absorbed[n], excluded);
      assert r == if c == [] then rest else rest + [c];
      forall k | 0 <= k < |r| ensures r[k] != [] && forall x :: x in r[k] ==> x !in excluded {
        if k < |rest| {
          assert r[k] == rest[k];
        }
      }
    }
  }

  /** Each cluster is the cluster of some centroid, and there are never more
      clusters than centroids. */
  lemma {:induction false} ParseClusterShape(centroids: seq<nat>, absorbed: seq<seq<nat>>, excluded: set<nat>,
                                              r: seq<seq<nat>>)
    requires |absorbed| == |centroids| && r == ParseSpec(centroids, absorbed, excluded)
    ensures |r| <= |centroids|
    ensures forall k :: 0 <= k < |r| ==>
              exists i :: 0 <= i < |centroids| && r[k] == ClusterOf(centroids[i], absorbed[i], excluded)
  {
    if centroids != [] {
      var n := |centroids| - 1;
      var rest := ParseSpec(centroids[..n], absorbed[..n], excluded);
      ParseClusterShape(centroids[..n], absorbed[..n], excluded, rest);
      forall k | 0 <= k < |r|
        ensures exists i :: 0 <= i < |centroids| && r[k] == ClusterOf(centroids[i], absorbed[i], excluded)
      {
        if k < |rest| {
          var i :| 0 <= i < |centroids[..n]| && rest[k] == ClusterOf(centroids[..n][i], absorbed[..n][i], excluded);
          assert r[k] == ClusterOf(centroids[i], absorbed[i], excluded);
        } else {
          assert r[k] == ClusterOf(centroids[n], absorbed[n], excluded);
        }
      }
    }
  }

  /** An id lands in some cluster exactly when it is a centroid or was
      absorbed by one, and is not excluded. */
  lemma ParseMembership(centroids: seq<nat>, absorbed: seq<seq<nat>>, excluded: set<nat>,
                        r: seq<seq<nat>>, x: nat)
    requires |absorbed| == |centroids| && r == ParseSpec(centroids, absorbed, excluded)
    ensures (exists k :: 0 <= k < |r| && x in r[k]) <==>
            x !in excluded && exists i :: 0 <= i < |centroids| && (x == centroids[i] || x in absorbed[i])
  {
    ParseMembershipClusters(centroids, absorbed, excluded, r, x);
    forall i | 0 <= i < |centroids|
      ensures x in ClusterOf(centroids[i], absorbed[i], excluded) <==>
              x !in excluded && (x == centroids[i] || x in absorbed[i])
    {
      assert x in [centroids[i]] + absorbed[i] <==> x == centroids[i] || x in absorbed[i];
    }
  }

  /** The same, in terms of the centroids' clusters. */
  lemma ParseMembershipClusters(centroids: seq<nat>, absorbed: seq<seq<nat>>, excluded: set<nat>,
                                r: seq<seq<nat>>, x: nat)
    requires |absorbed| == |centroids| && r == ParseSpec(centroids, absorbed, excluded)
    ensures (exists k :: 0 <= k < |r| && x in r[k]) <==>
            exists i :: 0 <= i < |centroids| && x in ClusterOf(centroids[i], absorbed[i], excluded)
  {
    if exists k :: 0 <= k < |r| && x in r[k] {
      var k :| 0 <= k < |r| && x in r[k];
      ParseClusterShape(centroids, absorbed, excluded, r);
      var i :| 0 <= i < |centroids| && r[k] == ClusterOf(centroids[i], absorbed[i], excluded);
    }
    if exists i :: 0 <= i < |centroids| && x in ClusterOf(centroids[i], absorbed[i], excluded) {
      var i :| 0 <= i < |centroids| && x in ClusterOf(centroids[i], absorbed[i], excluded);
      ParseClusterKept(centroids, absorbed, excluded, r, i);
    }
  }

  /** A non-empty centroid cluster is kept. */
  lemma {:induction false} ParseClusterKept(centroids: seq<nat>, absorbed: seq<seq<nat>>, excluded: set<nat>,
                                             r: seq<seq<nat>>, i: nat)
    requires |absorbed| == |centroids| && r == ParseSpec(centroids, absorbed, excluded)
    requires i < |centroids| && ClusterOf(centroids[i], absorbed[i], excluded) != []
    ensures exists k :: 0 <= k < |r| && r[k] == ClusterOf(centroids[i], absorbed[i], excluded)
  {
    var n := |centroids| - 1;
    var rest := ParseSpec(centroids[..n], absorbed[..n], excluded);
    var c := ClusterOf(centroids[n], absorbed[n], excluded);
    assert r == if c == [] then rest else rest + [c];
    if i < n {
      ParseClusterKept(centroids[..n], absorbed[..n], excluded, rest, i);
      var k :| 0 <= k < |rest| && rest[k] == ClusterOf(centroids[..n][i], absorbed[..n][i], excluded);
      assert r[k] == rest[k];
    } else {
      assert r[|r| - 1] == c;
    }
  }

  // ---------------------------------------------------------------------
  // Retentive variants: clusters are the components of the hierarchy graph
  // ---------------------------------------------------------------------

  /** `a` and `b` are the two ends of some hierarchy pair (in either order). */
  predicate Joined(h: seq<Pair>, a: nat, b: nat)
  {
    Pair(a, b) in h || Pair(b, a) in h
  }

  /** A walk along hierarchy pairs. */
  ghost predicate IsWalk(h: seq<Pair>, path: seq<nat>)
  {
    |path| >= 1 && forall i :: 0 <= i < |path| - 1 ==> Joined(h, path[i], path[i + 1])
  }

  /** `a` reaches `b` in the graph whose edges are the hierarchy pairs. */
  ghost predicate Connected(h: seq<Pair>, a: nat, b: nat)
  {
    exists path :: IsWalk(h, path) && path[0] == a && path[|path| - 1] == b
  }

  /** What `boost::connected_components` returns for the graph on the ids
      `0 .. |comp| - 1` whose edges are the hierarchy pairs: `num`
      labels, each used, two ids sharing a label exactly when they are connected. */
  ghost predicate IsComponentLabelling(h: seq<Pair>, comp: seq<nat>, num: nat)
  {
    && (forall i :: 0 <= i < |comp| ==> comp[i] < num)
    && (forall k :: 0 <= k < num ==> k in comp)
    && (forall a, b :: 0 <= a < |comp| && 0 <= b < |comp| ==> (comp[a] == comp[b] <==> Connected(h, a, b)))
  }

  /** The ids below `m` whose label is `k`, without the excluded ones, ascending. */
  function Members(comp: seq<nat>, excluded: set<nat>, k: nat, m: nat): seq<nat>
    requires m <= |comp|
  {
    if m == 0 then []
    else
      var rest := Members(comp, excluded, k, m - 1);
      if comp[m - 1] == k && (m - 1) !in excluded then rest + [m - 1] else rest
  }

  /** The loops of `large_parse_retain_result` after the components are known
      (graph.cpp:1644-1659): `num` empty clusters, then every id that is not
      excluded appended to the cluster of its label. */
  method ParseRetainResult(comp: seq<nat>, num: nat, excluded: set<nat>) returns (clusters: seq<seq<nat>>)
    requires forall i :: 0 <= i < |comp| ==> comp[i] < num
    ensures |clusters| == num
    ensures forall k :: 0 <= k < num ==> clusters[k] == Members(comp, excluded, k, |comp|)
  {
    clusters := [];
    var i := 0;
    while i < num
      invariant 0 <= i <= num && |clusters| == i
      invariant forall k :: 0 <= k < i ==> clusters[k] == []
    {
      clusters := clusters + [[]];
      i := i + 1;
    }
    i := 0;
    while i < |comp|
      invariant 0 <= i <= |comp| && |clusters| == num
      invariant forall k :: 0 <= k < num ==> clusters[k] == Members(comp, excluded, k, i)
    {
      if i !in excluded {
        var c := clusters[comp[i]];
        c := c + [i];
        clusters := clusters[comp[i] := c];
      }
      i := i + 1;
    }
  }

  /** An id is a member of label `k` exactly when it is below `m`, has label
      `k` and is not excluded; members are listed in ascending order. */
  lemma {:induction false} MembersSpec(comp: seq<nat>, excluded: set<nat>, k: nat, m: nat)
    requires m <= |comp|
    ensures var r := Members(comp, excluded, k, m);
      && (forall x :: x in r <==> 0 <= x < m && comp[x] == k && x !in excluded)
      && (forall i, j :: 0 <= i < j < |r| ==> r[i] < r[j])
  {
    if m > 0 {
      MembersSpec(comp, excluded, k, m - 1);
      var rest := Members(comp, excluded, k, m - 1);
      forall i | 0 <= i < |rest| ensures rest[i] < m - 1 {
        assert rest[i] in rest;
      }
    }
  }

  /** Every id that is not excluded is in exactly one cluster, once; an
      excluded id or an id outside the labelling is in none. */
  lemma RetainPartition(comp: seq<nat>, num: nat, excluded: set<nat>, clusters: seq<seq<nat>>, x: nat)
    requires forall i :: 0 <= i < |comp| ==> comp[i] < num
    requires |clusters| == num
    requires forall k :: 0 <= k < num ==> clusters[k] == Members(comp, excluded, k, |comp|)
    ensures x < |comp| && x !in excluded ==> multiset(clusters[comp[x]])[x] == 1
    ensures forall k :: 0 <= k < num && x in clusters[k] ==> x < |comp| && x !in excluded && k == comp[x]
  {
    forall k | 0 <= k < num
      ensures x in clusters[k] <==> x < |comp| && comp[x] == k && x !in excluded
    {
      MembersSpec(comp, excluded, k, |comp|);
    }
    if x < |comp| && x !in excluded {
      var c := clusters[comp[x]];
      MembersSpec(comp, excluded, comp[x], |comp|);
      assert Distinct(c);
      DistinctCounts(c, x);
    }
  }

  /** Given a component labelling, two ids that are not excluded share a
      cluster exactly when they are connected by hierarchy pairs. */
  lemma RetainClustersAreComponents(h: seq<Pair>, comp: seq<nat>, num: nat, excluded: set<nat>,
                                    clusters: seq<seq<nat>>, a: nat, b: nat)
    requires IsComponentLabelling(h, comp, num)
    requires |clusters| == num
    requires forall k :: 0 <= k < num ==> clusters[k] == Members(comp, excluded, k, |comp|)
    requires a < |comp| && b < |comp| && a !in excluded && b !in excluded
    ensures (exists k :: 0 <= k < num && a in clusters[k] && b in clusters[k]) <==> Connected(h, a, b)
  {
    RetainPartition(comp, num, excluded, clusters, a);
    RetainPartition(comp, num, excluded, clusters, b);
  }

  /** Both ids of a hierarchy pair land in the same cluster, unless one of them is excluded. */
  lemma PairTogether(h: seq<Pair>, comp: seq<nat>, num: nat, excluded: set<nat>, clusters: seq<seq<nat>>, i: nat)
    requires IsComponentLabelling(h, comp, num)
    requires |clusters| == num
    requires forall k :: 0 <= k < num ==> clusters[k] == Members(comp, excluded, k, |comp|)
    requires i < |h|
    requires h[i].first < |comp| && h[i].second < |comp|
    requires h[i].first !in excluded && h[i].second !in excluded
    ensures exists k :: 0 <= k < num && h[i].first in clusters[k] && h[i].second in clusters[k]
  {
    var a, b := h[i].first, h[i].second;
    assert Joined(h, a, b) by { assert h[i] == Pair(a, b); }
    assert IsWalk(h, [a, b]);
    RetainClustersAreComponents(h, comp, num, excluded, clusters, a, b);
  }

  /** There is one cluster per component: the number of clusters is the
      number of distinct labels. */
  lemma ClusterCountIsComponentCount(h: seq<Pair>, comp: seq<nat>, num: nat, clusters: seq<seq<nat>>)
    requires IsComponentLabelling(h, comp, num)
    requires |clusters| == num
    ensures |clusters| == |Elements(comp)|
  {
    assert Elements(comp) == Elements(Range(num)) by {
      forall x | x in Range(num) ensures x in comp {
        var i :| 0 <= i < num && Range(num)[i] == x;
      }
      forall x | x in comp ensures x in Range(num) {
        var i :| 0 <= i < |comp| && comp[i] == x;
        assert Range(num)[x] == x;
      }
    }
    RangeSetSize(num);
  }

  /** The ids `0 .. n - 1` are `n` distinct values. */
  lemma {:induction false} RangeSetSize(n: nat)
    ensures |Elements(Range(n))| == n
  {
    if n > 0 {
      RangeSetSize(n - 1);
      var last: nat := n - 1;
      var prev := Range(last);
      assert Range(n) == prev + [last];
      assert last !in prev by {
        forall i | 0 <= i < last ensures prev[i] != last {}
      }
      var small, big := Elements(prev), Elements(Range(n));
      assert big == small + {last} by {
        forall x ensures x in big <==> x in small || x == last {
          assert x in Range(n) <==> x in prev || x == last;
        }
      }
      assert |small + {last}| == |small| + 1;
    }
  }
}
