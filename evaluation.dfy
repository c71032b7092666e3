/** Scoring a clustering against the ground-truth communities (graph.cpp):
    the distinct-id count that both partitions are compared on, the ids that
    no community mentions, and the intra/inter edge counts behind the
    modularity score. */
module Evaluation {
  import opened Lists

  // ---------------------------------------------------------------------
  // count_unique_element
  // ---------------------------------------------------------------------

  /** The distinct ids of a partition (a `QSet<int>` filled from every list). */
  function Ids(ls: seq<seq<nat>>): set<nat>
  {
    Elements(Flatten(ls))
  }

  /** An id belongs to the partition's id set exactly when one of its lists holds it. */
  lemma IdsMembership(ls: seq<seq<nat>>, x: nat)
    ensures x in Ids(ls) <==> exists i :: 0 <= i < |ls| && x in ls[i]
  {
    FlattenMembership(ls, x);
  }

  /** There are never more distinct ids than listed elements (`sum` in the source). */
  lemma IdsBound(ls: seq<seq<nat>>)
    ensures |Ids(ls)| <= |Flatten(ls)|
  {
    ElementsSize(Flatten(ls));
  }

  /** One of the two double loops of `count_unique_element`
      (graph.cpp:1676-1695): every listed id is inserted into a set unless
      already there, and the listed elements are counted. */
  method CollectIds(ls: seq<seq<nat>>) returns (ids: set<nat>, sum: nat)
    ensures ids == Ids(ls) && sum == |Flatten(ls)|
  {
    ids, sum := {}, 0;
    var i := 0;
    while i < |ls|
      invariant 0 <= i <= |ls|
      invariant ids == Elements(Flatten(ls[..i])) && sum == |Flatten(ls[..i])|
    {
      ghost var before := Flatten(ls[..i]);
      assert before + ls[i][..0] == before;
      var j := 0;
      while j < |ls[i]|
        invariant 0 <= j <= |ls[i]|
        invariant ids == Elements(before + ls[i][..j]) && sum == |before + ls[i][..j]|
      {
        var v := ls[i][j];
        sum := sum + 1;
        if v !in ids {
          ids := ids + {v};
        }
        ElementsAppend(before + ls[i][..j], v);
        assert before + ls[i][..j + 1] == before + ls[i][..j] + [v];
        j := j + 1;
      }
      assert ls[..i + 1][..i] == ls[..i];
      assert ls[i][..j] == ls[i];
      i := i + 1;
    }
    assert ls[..i] == ls;
  }

  /** `count_unique_element` (graph.cpp:1672-1705): 0 when the result and
      the truth hold different numbers of distinct ids (or none at all),
      otherwise that common number. */
  method CountUniqueElement(result: seq<seq<nat>>, truth: seq<seq<nat>>) returns (r: nat)
    ensures r == 0 <==> |Ids(result)| != |Ids(truth)| || Ids(result) == {}
    ensures r > 0 ==> r == |Ids(result)| && r == |Ids(truth)|
  {
    var res, sum := CollectIds(result);
    var tr, _ := CollectIds(truth);
    if |res| != |tr| {
      r := 0;
    } else {
      r := |res|;
    }
  }

  /** When the result lists only vertex ids that are not excluded, and the
      excluded set is the vertex ids no community mentions, the result's ids
      are truth ids; so the two counts compared by `count_unique_element`
      agree exactly when both partitions cover the same ids. */
  lemma SameCountMeansSameIds(result: seq<seq<nat>>, truth: seq<seq<nat>>, n: nat, excluded: set<nat>)
    requires forall x: nat :: x in excluded <==> x < n && x !in Ids(truth)
    requires forall i, j :: 0 <= i < |result| && 0 <= j < |result[i]| ==> result[i][j] < n && result[i][j] !in excluded
    ensures Ids(result) <= Ids(truth)
    ensures |Ids(result)| == |Ids(truth)| <==> Ids(result) == Ids(truth)
  {
    forall x | x in Ids(result) ensures x in Ids(truth) {
      IdsMembership(result, x);
      var i :| 0 <= i < |result| && x in result[i];
      var j :| 0 <= j < |result[i]| && result[i][j] == x;
    }
    if |Ids(result)| == |Ids(truth)| {
      SubsetOfSameSize(Ids(result), Ids(truth));
    }
  }

  /** A subset as large as its superset is the whole superset. */
  lemma SubsetOfSameSize(a: set<nat>, b: set<nat>)
    requires a <= b && |a| == |b|
    ensures a == b
  {
    if a != b {
      var y :| y in b && y !in a;
      SubsetSize(a, b - {y});
    }
  }

  /** A subset is no larger than its superset. */
  lemma {:induction false} SubsetSize(a: set<nat>, b: set<nat>)
    requires a <= b
    ensures |a| <= |b|
    decreases a
  {
    if a != {} {
      var x :| x in a;
      SubsetSize(a - {x}, b - {x});
    }
  }

  // ---------------------------------------------------------------------
  // The excluded set
  // ---------------------------------------------------------------------

  /** The test in front of the "index > size" message as written
      (graph.cpp:1555): `id > n`. */
  predicate ReportedAsWritten(id: nat, n: nat)
  {
    id > n
  }

  /** The id `n` is not the index of any of `n` vertices, yet the written test lets it through. */
  lemma ReportMissesLastId(n: nat)
    ensures !ReportedAsWritten(n, n)
    ensures n !in Range(n)
  {
  }

  /** The intended test: `id` is not the index of one of the `n` vertices. */
  predicate OutOfRange(id: nat, n: nat)
  {
    id >= n
  }

  /** The intended test reports exactly the ids outside `0 .. n - 1`. */
  lemma OutOfRangeExact(id: nat, n: nat)
    ensures OutOfRange(id, n) <==> id !in Range(n)
  {
    if id < n {
      assert Range(n)[id] == id;
    }
  }

  /** The excluded-set step after the truth is read (graph.cpp:1545-1562):
      every id listed in a community is collected (and one outside the
      vertex range reported), then each vertex id that no community lists
      is added to the excluded set. */
  method ExcludedIds(truth: seq<seq<nat>>, n: nat, excluded0: set<nat>) returns (excluded: set<nat>, reported: bool)
    ensures forall x: nat :: x in excluded <==> x in excluded0 || (x < n && x !in Ids(truth))
    ensures reported <==> exists x :: x in Ids(truth) && OutOfRange(x, n)
  {
    var clustered: set<nat> := {};
    reported := false;
    var i := 0;
    while i < |truth|
      invariant 0 <= i <= |truth|
      invariant clustered == Elements(Flatten(truth[..i]))
      invariant reported <==> exists x :: x in Flatten(truth[..i]) && OutOfRange(x, n)
    {
      ghost var before := Flatten(truth[..i]);
      assert before + truth[i][..0] == before;
      var c := truth[i];
      var j := 0;
      while j < |c|
        invariant 0 <= j <= |c|
        invariant clustered == Elements(before + c[..j])
        invariant reported <==> exists x :: x in before + c[..j] && OutOfRange(x, n)
      {
        if c[j] !in clustered {
          clustered := clustered + {c[j]};
        }
        if OutOfRange(c[j], n) {
          reported := true;
        }
        ElementsAppend(before + c[..j], c[j]);
        assert before + c[..j + 1] == before + c[..j] + [c[j]];
        j := j + 1;
      }
      assert truth[..i + 1][..i] == truth[..i];
      assert c[..j] == c;
      i := i + 1;
    }
    assert truth[..i] == truth;
    excluded := excluded0;
    var v: nat := 0;
    while v < n
      invariant 0 <= v <= n
      invariant forall x: nat :: x in excluded <==> x in excluded0 || (x < v && x !in clustered)
    {
      if v !in clustered {
        excluded := excluded + {v};
      }
      v := v + 1;
    }
  }

  // ---------------------------------------------------------------------
  // Adjacency built from an edge list
  // ---------------------------------------------------------------------

  /** What one edge contributes to the neighbour list of `v`: the edge is
      registered once at each endpoint, and seen from that endpoint leads to
      the other one; a self-loop is registered twice and leads back. */
  function Ends(e: (nat, nat), v: nat): seq<nat>
  {
    (if e.0 == v then [e.1] else []) + (if e.1 == v then [e.0] else [])
  }

  /** The ids at the other end of each edge of `v`, in edge-list order. */
  function Adjacency(es: seq<(nat, nat)>, v: nat): seq<nat>
  {
    if es == [] then [] else Adjacency(es[..|es| - 1], v) + Ends(es[|es| - 1], v)
  }

  /** The neighbour lists of the vertices `0 .. n - 1`. */
  function AdjList(es: seq<(nat, nat)>, n: nat): (adj: seq<seq<nat>>)
    ensures |adj| == n && forall v :: 0 <= v < n ==> adj[v] == Adjacency(es, v)
  {
    seq(n, v requires 0 <= v < n => Adjacency(es, v))
  }

  /** Every edge joins two of the vertices `0 .. n - 1`. */
  predicate EdgesWithin(es: seq<(nat, nat)>, n: nat)
  {
    forall k :: 0 <= k < |es| ==> es[k].0 < n && es[k].1 < n
  }

  /** The neighbour-list lengths of the vertices `0 .. m - 1`, summed. */
  function DegreeTotal(es: seq<(nat, nat)>, m: nat): nat
  {
    if m == 0 then 0 else DegreeTotal(es, m - 1) + |Adjacency(es, m - 1)|
  }

  /** Summed over `0 .. m - 1`, one edge contributes one entry per endpoint below `m`. */
  lemma {:induction false} EndsTotal(es: seq<(nat, nat)>, e: (nat, nat), m: nat)
    ensures DegreeTotal(es + [e], m) == DegreeTotal(es, m) + (if e.0 < m then 1 else 0) + (if e.1 < m then 1 else 0)
  {
    if m > 0 {
      EndsTotal(es, e, m - 1);
      assert (es + [e])[..|es + [e]| - 1] == es;
      assert Adjacency(es + [e], m - 1) == Adjacency(es, m - 1) + Ends(e, m - 1);
    }
  }

  /** The handshake count: the neighbour lists of all vertices hold two entries per edge. */
  lemma {:induction false} Handshake(es: seq<(nat, nat)>, n: nat)
    requires EdgesWithin(es, n)
    ensures DegreeTotal(es, n) == 2 * |es|
  {
    if es == [] {
      NoEdgesNoDegree(n);
    } else {
      var k := |es| - 1;
      assert es == es[..k] + [es[k]];
      assert EdgesWithin(es[..k], n) by {
        forall i | 0 <= i < k ensures es[..k][i].0 < n && es[..k][i].1 < n {
          assert es[..k][i] == es[i];
        }
      }
      Handshake(es[..k], n);
      EndsTotal(es[..k], es[k], n);
    }
  }

  lemma {:induction false} NoEdgesNoDegree(m: nat)
    ensures DegreeTotal([], m) == 0
  {
    if m > 0 {
      NoEdgesNoDegree(m - 1);
    }
  }

  // ---------------------------------------------------------------------
  // Modularity counts (LARGE_compute_modularity)
  // ---------------------------------------------------------------------

  /** How many of `others` lie in the cluster's id set `vi` (`intra` steps for one vertex). */
  function Inside(others: seq<nat>, vi: set<nat>): nat
  {
    if others == [] then 0
    else Inside(others[..|others| - 1], vi) + (if others[|others| - 1] in vi then 1 else 0)
  }

  /** How many of `others` lie outside `vi` (`inter` steps for one vertex). */
  function Outside(others: seq<nat>, vi: set<nat>): nat
  {
    if others == [] then 0
    else Outside(others[..|others| - 1], vi) + (if others[|others| - 1] in vi then 0 else 1)
  }

  /** Every neighbour is counted once, either inside or outside. */
  lemma {:induction false} InsideOutside(others: seq<nat>, vi: set<nat>)
    ensures Inside(others, vi) + Outside(others, vi) == |others|
  {
    if others != [] {
      InsideOutside(others[..|others| - 1], vi);
    }
  }

  /** A list lying wholly in `vi` has nothing outside. */
  lemma {:induction false} AllInside(others: seq<nat>, vi: set<nat>)
    requires forall k :: 0 <= k < |others| ==> others[k] in vi
    ensures Outside(others, vi) == 0
  {
    if others != [] {
      AllInside(others[..|others| - 1], vi);
    }
  }

  /** Every member is a vertex of the neighbour-list table. */
  predicate MembersWithin(members: seq<nat>, adj: seq<seq<nat>>)
  {
    forall k :: 0 <= k < |members| ==> members[k] < |adj|
  }

  /** `intra` of a cluster: over its members' edges, the ends lying in `vi`. */
  function Intra(members: seq<nat>, vi: set<nat>, adj: seq<seq<nat>>): nat
    requires MembersWithin(members, adj)
  {
    if members == [] then 0
    else Intra(members[..|members| - 1], vi, adj) + Inside(adj[members[|members| - 1]], vi)
  }

  /** `inter` of a cluster: over its members' edges, the ends lying outside `vi`. */
  function Inter(members: seq<nat>, vi: set<nat>, adj: seq<seq<nat>>): nat
    requires MembersWithin(members, adj)
  {
    if members == [] then 0
    else Inter(members[..|members| - 1], vi, adj) + Outside(adj[members[|members| - 1]], vi)
  }

  /** The members' neighbour-list lengths, summed. */
  function DegreeSum(members: seq<nat>, adj: seq<seq<nat>>): nat
    requires MembersWithin(members, adj)
  {
    if members == [] then 0
    else DegreeSum(members[..|members| - 1], adj) + |adj[members[|members| - 1]]|
  }

  /** For every cluster, `intra + inter` is the sum of its members' adjacency-list lengths. */
  lemma {:induction false} IntraPlusInter(members: seq<nat>, vi: set<nat>, adj: seq<seq<nat>>)
    requires MembersWithin(members, adj)
    ensures Intra(members, vi, adj) + Inter(members, vi, adj) == DegreeSum(members, adj)
  {
    if members != [] {
      var k := |members| - 1;
      IntraPlusInter(members[..k], vi, adj);
      InsideOutside(adj[members[k]], vi);
    }
  }

  /** A cluster whose members' neighbours all lie inside it has no `inter` edges. */
  lemma {:induction false} ClosedClusterNoInter(members: seq<nat>, vi: set<nat>, adj: seq<seq<nat>>)
    requires MembersWithin(members, adj)
    requires forall k, l :: 0 <= k < |members| && 0 <= l < |adj[members[k]]| ==> adj[members[k]][l] in vi
    ensures Inter(members, vi, adj) == 0
    ensures Intra(members, vi, adj) == DegreeSum(members, adj)
  {
    if members != [] {
      var k := |members| - 1;
      ClosedClusterNoInter(members[..k], vi, adj);
      AllInside(adj[members[k]], vi);
      IntraPlusInter(members, vi, adj);
    }
  }

  /** `DegreeSum` over all vertex ids in order is the handshake total. */
  lemma {:induction false} DegreeSumRange(es: seq<(nat, nat)>, n: nat, m: nat)
    requires m <= n
    ensures MembersWithin(Range(m), AdjList(es, n))
    ensures DegreeSum(Range(m), AdjList(es, n)) == DegreeTotal(es, m)
  {
    if m > 0 {
      DegreeSumRange(es, n, m - 1);
      assert Range(m)[..m - 1] == Range(m - 1);
    }
  }

  /** A score that is a real number, or the NaN that `0 / 0` gives in doubles. */
  datatype Score = Value(q: real) | NotANumber

  /** `Qi = intra / m - ((intra + inter) / m)^2` (graph.cpp:2132-2136), exactly. */
  function Term(intra: nat, inter: nat, m: nat): real
    requires m > 0
  {
    var e := intra as real / m as real;
    var a := (intra + inter) as real / m as real;
    e - a * a
  }

  /** Every cluster's members are vertex ids. */
  predicate ClustersWithin(clusters: seq<seq<nat>>, adj: seq<seq<nat>>)
  {
    forall i :: 0 <= i < |clusters| ==> MembersWithin(clusters[i], adj)
  }

  /** The sum of the clusters' terms, each cluster's own ids forming `vi`. */
  function SumTerms(clusters: seq<seq<nat>>, adj: seq<seq<nat>>, m: nat): real
    requires m > 0 && ClustersWithin(clusters, adj)
  {
    if clusters == [] then 0.0
    else
      var c := clusters[|clusters| - 1];
      SumTerms(clusters[..|clusters| - 1], adj, m)
        + Term(Intra(c, Elements(c), adj), Inter(c, Elements(c), adj), m)
  }

  /** The modularity `Q` with `m = 2 global_e`: the sum of the terms, or NaN
      when there is a cluster and `m` is 0. */
  function Modularity(clusters: seq<seq<nat>>, adj: seq<seq<nat>>, m: nat): Score
    requires ClustersWithin(clusters, adj)
  {
    if clusters == [] then Value(0.0)
    else if m == 0 then NotANumber
    else Value(SumTerms(clusters, adj, m))
  }

  /** One cluster holding every vertex, scored with `global_e = |E|`:
      `intra = 2 |E|`, `inter = 0`, and the term is exactly 0. */
  lemma WholeGraphCluster(es: seq<(nat, nat)>, n: nat)
    requires EdgesWithin(es, n) && |es| > 0
    ensures MembersWithin(Range(n), AdjList(es, n))
    ensures Intra(Range(n), Elements(Range(n)), AdjList(es, n)) == 2 * |es|
    ensures Inter(Range(n), Elements(Range(n)), AdjList(es, n)) == 0
    ensures Modularity([Range(n)], AdjList(es, n), 2 * |es|) == Value(0.0)
  {
    WholeGraphCounts(es, n);
    var all, adj, m := Range(n), AdjList(es, n), 2 * |es|;
    var none: seq<seq<nat>> := [];
    assert [all][..0] == none && [all][0] == all;
    assert ClustersWithin([all], adj);
    FullTermIsZero(m);
    assert SumTerms([all], adj, m) == SumTerms(none, adj, m) + Term(m, 0, m);
  }

  /** A cluster with every edge inside and `m = intra` scores `1 - 1^2 = 0`. */
  lemma FullTermIsZero(m: nat)
    requires m > 0
    ensures Term(m, 0, m) == 0.0
  {
    var r := m as real;
    assert r / r == 1.0;
  }

  /** The counts of the all-vertices cluster. */
  lemma WholeGraphCounts(es: seq<(nat, nat)>, n: nat)
    requires EdgesWithin(es, n)
    ensures MembersWithin(Range(n), AdjList(es, n))
    ensures Intra(Range(n), Elements(Range(n)), AdjList(es, n)) == 2 * |es|
    ensures Inter(Range(n), Elements(Range(n)), AdjList(es, n)) == 0
  {
    var adj, all := AdjList(es, n), Range(n);
    DegreeSumRange(es, n, n);
    Handshake(es, n);
    forall k, l | 0 <= k < |all| && 0 <= l < |adj[all[k]]| ensures adj[all[k]][l] in Elements(all) {
      AdjacencyWithin(es, n, all[k]);
      OutOfRangeExact(adj[all[k]][l], n);
    }
    ClosedClusterNoInter(all, Elements(all), adj);
  }

  /** Neighbour ids of a vertex are vertex ids. */
  lemma {:induction false} AdjacencyWithin(es: seq<(nat, nat)>, n: nat, v: nat)
    requires EdgesWithin(es, n)
    ensures forall l :: 0 <= l < |Adjacency(es, v)| ==> Adjacency(es, v)[l] < n
  {
    if es != [] {
      var k := |es| - 1;
      assert EdgesWithin(es[..k], n) by {
        forall i | 0 <= i < k ensures es[..k][i].0 < n && es[..k][i].1 < n {
          assert es[..k][i] == es[i];
        }
      }
      AdjacencyWithin(es[..k], n, v);
    }
  }

  /** The six-vertex, seven-edge instance built in graph.cpp:1081-1099. */
  function FixtureEdges(): seq<(nat, nat)>
  {
    [(0, 1), (0, 2), (1, 2), (2, 3), (3, 4), (3, 5), (4, 5)]
  }

  /** Its clustering: `{0, 1, 2, 3}` and `{4, 5}`. */
  function FixtureClusters(): seq<seq<nat>>
  {
    [[0, 1, 2, 3], [4, 5]]
  }

  /** The fixture's modularity with `global_e = 7`: both clusters score
      `8/14 - (10/14)^2 = 2/14 - (4/14)^2 = 12/196`, so `Q = 6/49`. */
  lemma FixtureModularity()
    ensures ClustersWithin(FixtureClusters(), AdjList(FixtureEdges(), 6))
    ensures Modularity(FixtureClusters(), AdjList(FixtureEdges(), 6), 14) == Value(6.0 / 49.0)
  {
    var adj := AdjList(FixtureEdges(), 6);
    FixtureAdjacency();
    var a: seq<nat>, b: seq<nat> := [0, 1, 2, 3], [4, 5];
    FixtureFirstCluster(adj);
    FixtureSecondCluster(adj);
    assert FixtureClusters() == [a, b];
    TwoClusters(a, b, adj, 14);
    FixtureTerms();
  }

  /** The modularity of a two-cluster clustering is the sum of its two terms. */
  lemma TwoClusters(a: seq<nat>, b: seq<nat>, adj: seq<seq<nat>>, m: nat)
    requires MembersWithin(a, adj) && MembersWithin(b, adj) && m > 0
    ensures ClustersWithin([a, b], adj)
    ensures Modularity([a, b], adj, m)
         == Value(Term(Intra(a, Elements(a), adj), Inter(a, Elements(a), adj), m)
                  + Term(Intra(b, Elements(b), adj), Inter(b, Elements(b), adj), m))
  {
    var none: seq<seq<nat>> := [];
    assert [a][..0] == none;
    assert ClustersWithin([a], adj);
    assert SumTerms([a], adj, m) == Term(Intra(a, Elements(a), adj), Inter(a, Elements(a), adj), m);
    assert [a, b][..1] == [a];
  }

  /** The fixture's two terms: `8/14 - (10/14)^2` and `2/14 - (4/14)^2`, each `12/196`. */
  lemma FixtureTerms()
    ensures Term(8, 2, 14) + Term(2, 2, 14) == 6.0 / 49.0
  {
    assert Term(8, 2, 14) == 12.0 / 196.0;
    assert Term(2, 2, 14) == 12.0 / 196.0;
  }

  /** 1 for an id in `vi`, else 0. */
  function In(x: nat, vi: set<nat>): nat
  {
    if x in vi then 1 else 0
  }

  /** `Inside` and `Outside` of a two-element list. */
  lemma InsideOfTwo(x: nat, y: nat, vi: set<nat>)
    ensures Inside([x, y], vi) == In(x, vi) + In(y, vi)
    ensures Outside([x, y], vi) == 2 - In(x, vi) - In(y, vi)
  {
    InsideOfOne(x, vi);
    assert [x, y][..1] == [x];
  }

  /** `Inside` and `Outside` of a one-element list. */
  lemma InsideOfOne(x: nat, vi: set<nat>)
    ensures Inside([x], vi) == In(x, vi) && Outside([x], vi) == 1 - In(x, vi)
  {
    var none: seq<nat> := [];
    assert [x][..0] == none;
  }

  /** `Inside` and `Outside` of a three-element list. */
  lemma InsideOfThree(x: nat, y: nat, z: nat, vi: set<nat>)
    ensures Inside([x, y, z], vi) == In(x, vi) + In(y, vi) + In(z, vi)
    ensures Outside([x, y, z], vi) == 3 - In(x, vi) - In(y, vi) - In(z, vi)
  {
    assert [x, y, z][..2] == [x, y];
    InsideOfTwo(x, y, vi);
  }

  /** `Intra` and `Inter` of a two-member cluster. */
  lemma IntraOfTwo(p: nat, q: nat, vi: set<nat>, adj: seq<seq<nat>>)
    requires p < |adj| && q < |adj|
    ensures MembersWithin([p, q], adj)
    ensures Intra([p, q], vi, adj) == Inside(adj[p], vi) + Inside(adj[q], vi)
    ensures Inter([p, q], vi, adj) == Outside(adj[p], vi) + Outside(adj[q], vi)
  {
    IntraOfOne(p, vi, adj);
    assert [p, q][..1] == [p];
  }

  /** `Intra` and `Inter` of a one-member cluster. */
  lemma IntraOfOne(p: nat, vi: set<nat>, adj: seq<seq<nat>>)
    requires p < |adj|
    ensures MembersWithin([p], adj)
    ensures Intra([p], vi, adj) == Inside(adj[p], vi) && Inter([p], vi, adj) == Outside(adj[p], vi)
  {
    var none: seq<nat> := [];
    assert [p][..0] == none;
  }

  /** `Intra` and `Inter` of a four-member cluster. */
  lemma IntraOfFour(p: nat, q: nat, r: nat, t: nat, vi: set<nat>, adj: seq<seq<nat>>)
    requires p < |adj| && q < |adj| && r < |adj| && t < |adj|
    ensures MembersWithin([p, q, r, t], adj)
    ensures Intra([p, q, r, t], vi, adj)
      == Inside(adj[p], vi) + Inside(adj[q], vi) + Inside(adj[r], vi) + Inside(adj[t], vi)
    ensures Inter([p, q, r, t], vi, adj)
      == Outside(adj[p], vi) + Outside(adj[q], vi) + Outside(adj[r], vi) + Outside(adj[t], vi)
  {
    assert [p, q, r, t][..3] == [p, q, r] && [p, q, r][..2] == [p, q];
    IntraOfTwo(p, q, vi, adj);
  }

  /** `{0, 1, 2, 3}`: eight edge ends inside (edges 0-1, 0-2, 1-2, 2-3 seen
      from both sides) and two out (3-4, 3-5). */
  lemma FixtureFirstCluster(adj: seq<seq<nat>>)
    requires adj == [[1, 2], [0, 2], [0, 1, 3], [2, 4, 5], [3, 5], [3, 4]]
    ensures MembersWithin([0, 1, 2, 3], adj)
    ensures Intra([0, 1, 2, 3], Elements([0, 1, 2, 3]), adj) == 8
    ensures Inter([0, 1, 2, 3], Elements([0, 1, 2, 3]), adj) == 2
  {
    var va: set<nat> := {0, 1, 2, 3};
    assert Elements([0, 1, 2, 3]) == va;
    InsideOfTwo(1, 2, va);
    InsideOfTwo(0, 2, va);
    InsideOfThree(0, 1, 3, va);
    InsideOfThree(2, 4, 5, va);
    IntraOfFour(0, 1, 2, 3, va, adj);
  }

  /** `{4, 5}`: two edge ends inside (4-5 seen from both sides) and two out (3-4, 3-5). */
  lemma FixtureSecondCluster(adj: seq<seq<nat>>)
    requires adj == [[1, 2], [0, 2], [0, 1, 3], [2, 4, 5], [3, 5], [3, 4]]
    ensures MembersWithin([4, 5], adj)
    ensures Intra([4, 5], Elements([4, 5]), adj) == 2
    ensures Inter([4, 5], Elements([4, 5]), adj) == 2
  {
    var vb: set<nat> := {4, 5};
    assert Elements([4, 5]) == vb;
    InsideOfTwo(3, 5, vb);
    InsideOfTwo(3, 4, vb);
    IntraOfTwo(4, 5, vb, adj);
  }

  /** The fixture's neighbour lists, in edge order. */
  lemma FixtureAdjacency()
    ensures AdjList(FixtureEdges(), 6) == [[1, 2], [0, 2], [0, 1, 3], [2, 4, 5], [3, 5], [3, 4]]
  {
    var p0: seq<(nat, nat)> := [];
    var p1 := p0 + [(0, 1)];
    var p2 := p1 + [(0, 2)];
    var p3 := p2 + [(1, 2)];
    var p4 := p3 + [(2, 3)];
    var p5 := p4 + [(3, 4)];
    var p6 := p5 + [(3, 5)];
    var p7 := p6 + [(4, 5)];
    assert p7 == FixtureEdges();
    var want: seq<seq<nat>> := [[1, 2], [0, 2], [0, 1, 3], [2, 4, 5], [3, 5], [3, 4]];
    forall v: nat | v < 6 ensures Adjacency(p7, v) == want[v] {
      AdjacencySnoc(p0, (0, 1), v);
      AdjacencySnoc(p1, (0, 2), v);
      AdjacencySnoc(p2, (1, 2), v);
      AdjacencySnoc(p3, (2, 3), v);
      AdjacencySnoc(p4, (3, 4), v);
      AdjacencySnoc(p5, (3, 5), v);
      AdjacencySnoc(p6, (4, 5), v);
    }
  }

  /** Registering one more edge extends each neighbour list by that edge's ends. */
  lemma AdjacencySnoc(es: seq<(nat, nat)>, e: (nat, nat), v: nat)
    ensures Adjacency(es + [e], v) == Adjacency(es, v) + Ends(e, v)
  {
    assert (es + [e])[..|es + [e]| - 1] == es;
  }
}
