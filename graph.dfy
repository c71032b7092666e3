/** The `Graph` object of graph.cpp/graph.h as far as clustering and scoring
    go: the vertex and edge lists, the hierarchy and centroids a run leaves,
    the ground-truth communities, the excluded ids and the clustering being
    scored.  Its methods tie the parts together: building the fixture graph,
    running one aggregation variant, reading the clusters off the run,
    comparing them with the truth, and resetting for the next run. */
module GraphModel {
  import opened Lists
  import opened EdgeStore
  import opened Aggregation
  import opened Clusters
  import opened Evaluation
  import opened Overlap
  import opened Pairwise

  datatype Option<T> = None | Some(value: T)

  /** The integer outcome of `LARGE_compute_Pairwise_efficient`: `calA`-`calD`. */
  datatype PairTally = PairTally(a: nat, b: nat, c: nat, d: nat)

  /** What `PairCounts` promises about a tally for `truth` against `result`
      with `n` ids: when `n` is the number of ids the table counts and `n^2`
      fits in 64 bits, `a` counts the pairs together in both partitions,
      `b` and `c` the pairs together in only one, and the four add up to all
      pairs. */
  ghost predicate TallyOf(truth: seq<seq<nat>>, result: seq<seq<nat>>, n: nat, p: PairTally)
  {
    var t := Table(truth, result);
    n == Sum(Flat(t)) && n * n < U64 ==>
      && p.a == SumChoose2(Flat(t))
      && 2 * p.b == SumSq(RowSums(t)) - SumSq(Flat(t))
      && 2 * p.c == SumSq(ColSums(t, |result|)) - SumSq(Flat(t))
      && p.a + p.b + p.c + p.d == n * (n - 1) / 2
  }

  /** The endpoints of each edge, by vertex index, in edge-list order. */
  function EdgePairs(es: seq<Edge>): (r: seq<(nat, nat)>)
    ensures |r| == |es|
    ensures forall k :: 0 <= k < |es| ==> r[k] == (es[k].from.index, es[k].to.index)
  {
    seq(|es|, k requires 0 <= k < |es| => (es[k].from.index, es[k].to.index))
  }

  /** The terms of the first `i + 1` clusters are those of the first `i`
      and the term of cluster `i`. */
  lemma SumTermsStep(clusters: seq<seq<nat>>, i: nat, adj: seq<seq<nat>>, m: nat)
    requires i < |clusters| && m > 0 && ClustersWithin(clusters, adj)
    ensures ClustersWithin(clusters[..i], adj) && ClustersWithin(clusters[..i + 1], adj)
    ensures SumTerms(clusters[..i + 1], adj, m)
      == SumTerms(clusters[..i], adj, m)
        + Term(Intra(clusters[i], Elements(clusters[i]), adj), Inter(clusters[i], Elements(clusters[i]), adj), m)
  {
    assert clusters[..i + 1][..i] == clusters[..i];
  }

  /** `base` followed by one more element of `s`. */
  lemma PrefixStep<T>(base: seq<T>, s: seq<T>, k: nat)
    requires k < |s|
    ensures base + s[..k + 1] == base + s[..k] + [s[k]]
  {
    assert s[..k + 1] == s[..k] + [s[k]];
  }

  /** An empty edge list lists no pairs before `pairs`. */
  lemma NoPairsBefore(es: seq<Edge>, pairs: seq<(nat, nat)>)
    requires es == []
    ensures EdgePairs(es) + pairs == pairs
  {
    assert EdgePairs(es) == [];
  }

  /** Listing one more edge lists one more pair. */
  lemma EdgePairsSnoc(es: seq<Edge>, e: Edge)
    ensures EdgePairs(es + [e]) == EdgePairs(es) + [(e.from.index, e.to.index)]
  {
    var l, r := EdgePairs(es + [e]), EdgePairs(es) + [(e.from.index, e.to.index)];
    forall k | 0 <= k < |l| ensures l[k] == r[k] {
      if k < |es| {
        assert (es + [e])[k] == es[k];
      }
    }
  }

  /** Vertex `i` of the list has index `i`. */
  ghost predicate IndexedVertices(vs: seq<Vertex>)
  {
    forall i :: 0 <= i < |vs| ==> vs[i].index == i
  }

  /** Every edge joins two of the vertices, found at the positions of their indices. */
  predicate EdgesListed(vs: seq<Vertex>, es: seq<Edge>)
  {
    forall k :: 0 <= k < |es| ==>
      && es[k].from.index < |vs| && vs[es[k].from.index] == es[k].from
      && es[k].to.index < |vs| && vs[es[k].to.index] == es[k].to
  }

  /** The incident-edge and neighbour-index lists of each vertex of `vs`. */
  ghost function VertexLists(vs: seq<Vertex>): (r: seq<(seq<Edge>, seq<nat>)>)
    reads vs
    ensures |r| == |vs| && forall k :: 0 <= k < |vs| ==> r[k] == (vs[k].edges, vs[k].adj)
  {
    seq(|vs|, k requires 0 <= k < |vs| reads vs => (vs[k].edges, vs[k].adj))
  }

  /** Each vertex's neighbour indices, in the order of its edges, are those
      the edge list `es` gives it, and its neighbour-index list holds the
      same ids. */
  ghost predicate InStepWith(vs: seq<Vertex>, es: seq<Edge>)
    reads vs
  {
    forall i :: 0 <= i < |vs| ==>
      && NeighbourIndexes(vs[i], vs[i].edges) == Adjacency(EdgePairs(es), i)
      && InStep(vs[i], vs[i].edges, vs[i].adj)
  }

  class Graph {
    /** `myVertexList`. */
    var vertices: seq<Vertex>
    /** `myEdgeList`. */
    var edgeList: seq<Edge>
    /** `centroids`: the winners of a destructive run, by vertex index. */
    var centroids: seq<nat>
    /** `hierarchy`: the pairs a run recorded. */
    var hierarchy: seq<Pair>
    /** `ground_truth_communities`. */
    var groundTruth: seq<seq<nat>>
    /** `large_result`: the clustering being scored. */
    var largeResult: seq<seq<nat>>
    /** `large_excluded`: vertex ids that no community lists. */
    var excluded: set<nat>
    var graphIsReady: bool
    /** The file-level `global_e`, the edge count read from the input. */
    var globalE: nat

    /** Vertex `i` of the list has index `i`. */
    ghost predicate Indexed()
      reads this`vertices
    {
      IndexedVertices(vertices)
    }

    /** The registrations are in step with the edge list: every listed edge
        joins two listed vertices, and each vertex's two lists are those the
        edge list gives it. */
    ghost predicate Registered()
      reads this`vertices, this`edgeList, vertices
    {
      EdgesListed(vertices, edgeList) && InStepWith(vertices, edgeList)
    }

    /** The neighbour list each vertex's edges give it (`get_neighbour_fromEdge`
        over `getAllEdge`). */
    function Adj(): (adj: seq<seq<nat>>)
      reads this`vertices, vertices
      ensures |adj| == |vertices|
      ensures forall i :: 0 <= i < |vertices| ==> adj[i] == NeighbourIndexes(vertices[i], vertices[i].edges)
    {
      var vs := vertices;
      seq(|vs|, i requires 0 <= i < |vs| reads vs => NeighbourIndexes(vs[i], vs[i].edges))
    }

    /** `Graph::Graph`: nothing loaded, the graph not ready; `global_e` starts at 0. */
    constructor ()
      ensures vertices == [] && edgeList == [] && centroids == [] && hierarchy == []
      ensures groundTruth == [] && largeResult == [] && excluded == {}
      ensures !graphIsReady && globalE == 0
      ensures Indexed() && Registered()
    {
      vertices, edgeList, centroids, hierarchy := [], [], [], [];
      groundTruth, largeResult, excluded := [], [], {};
      graphIsReady, globalE := false, 0;
    }

    /** `checkGraphCondition` (graph.cpp:1054-1067): a graph can be clustered
        only when it has vertices and is ready. */
    predicate CheckGraphCondition(): (ok: bool)
      reads this
      ensures ok ==> |vertices| > 0 && graphIsReady
      ensures !ok ==> vertices == [] || !graphIsReady
    {
      if |vertices| == 0 then false
      else if !graphIsReady then false
      else true
    }

    /** A new vertex whose index is its position (graph.cpp:1083-1088). */
    method AddVertex() returns (v: Vertex)
      requires Indexed() && Registered()
      modifies this`vertices
      ensures fresh(v) && v.index == |old(vertices)| && v.edges == [] && v.adj == []
      ensures vertices == old(vertices) + [v]
      ensures Indexed() && Registered()
    {
      ghost var vs0 := vertices;
      v := new Vertex(|vertices|);
      vertices := vertices + [v];
      AppendVertex(vs0, edgeList, v);
    }

    /** A new edge between vertices `i` and `j`, registered with both
        endpoints and appended to the edge list (graph.cpp:1089-1096,
        1490-1496).  The registrations stay in step with the edge list. */
    method AddEdge(i: nat, j: nat) returns (e: Edge)
      requires Indexed() && Registered()
      requires i < |vertices| && j < |vertices|
      modifies this`edgeList, vertices[i], vertices[j]
      ensures vertices == old(vertices) && edgeList == old(edgeList) + [e]
      ensures fresh(e) && e.from == vertices[i] && e.to == vertices[j] && e.index == |old(edgeList)|
      ensures Registered()
    {
      ghost var es0 := edgeList;
      ghost var vs := vertices;
      ghost var lists := VertexLists(vs);
      e := new Edge(vertices[i], vertices[j], |edgeList|);
      edgeList := edgeList + [e];
      assert EdgesListed(vs, edgeList) by {
        EdgesListedAppend(vs, es0, e);
      }
      EdgePairsSnoc(es0, e);
      assert forall v :: 0 <= v < |vs| && vs[v] != vs[i] && vs[v] != vs[j] ==>
        vs[v].edges == lists[v].0 && vs[v].adj == lists[v].1;
      RegisterAll(vs, es0, e, i, j, lists);
    }

    /** Edges for the index pairs `pairs`, added one after another with `AddEdge`. */
    method AddEdges(pairs: seq<(nat, nat)>)
      requires Indexed() && Registered()
      requires forall k :: 0 <= k < |pairs| ==> pairs[k].0 < |vertices| && pairs[k].1 < |vertices|
      modifies this`edgeList, set v | v in vertices
      ensures vertices == old(vertices) && EdgePairs(edgeList) == EdgePairs(old(edgeList)) + pairs
      ensures Registered() && globalE == old(globalE)
    {
      var k := 0;
      while k < |pairs|
        invariant 0 <= k <= |pairs| && vertices == old(vertices) && Registered()
        invariant EdgePairs(edgeList) == EdgePairs(old(edgeList)) + pairs[..k]
      {
        ghost var before := edgeList;
        var e := AddEdge(pairs[k].0, pairs[k].1);
        assert (e.from.index, e.to.index) == pairs[k] by {
          assert e.from.index == pairs[k].0 && e.to.index == pairs[k].1;
        }
        EdgePairsSnoc(before, e);
        PrefixStep(EdgePairs(old(edgeList)), pairs, k);
        k := k + 1;
      }
      assert pairs[..k] == pairs;
    }

    /** `LARGE_reset` (graph.cpp:1910-1922): the edge list, hierarchy,
        centroids and result are emptied and the graph is no longer ready, so
        the next run must reload it first. */
    method LargeReset()
      modifies this`edgeList, this`hierarchy, this`centroids, this`largeResult, this`graphIsReady
      ensures edgeList == [] && hierarchy == [] && centroids == [] && largeResult == []
      ensures !graphIsReady && !CheckGraphCondition()
      ensures vertices == old(vertices) && groundTruth == old(groundTruth)
      ensures excluded == old(excluded) && globalE == old(globalE)
    {
      edgeList := [];
      hierarchy := [];
      centroids := [];
      largeResult := [];
      graphIsReady := false;
    }

    /** One `random_aggregate_*` method (graph.cpp:46-98 and its fifteen
        siblings).  The III variants first clear `hierarchy`; a graph that is
        not ready is reloaded (`reConnectGraph`, that is `LARGE_reload`,
        graph.cpp:1927-1940: `LARGE_reset`, the edges read back from file,
        then ready).  The run itself works on `g0`, the adjacency, weights and
        flags of the vertices: when no reload happens `g0` is this graph's
        own adjacency, after a reload it is the graph read back.  The run's
        pairs become `hierarchy`, a destructive run that finishes stores its
        winners as `centroids`, and the final snapshot is returned as `g`
        with the source's counter `t`. */
    method Aggregate(v: Variant, g0: Snapshot) returns (outcome: Outcome, g: Snapshot, t: nat)
      requires WellFormed(g0) && Symmetric(g0) && |g0.nbrs| == |vertices|
      requires CheckGraphCondition() ==> Indexed() && Registered() && g0.nbrs == Adj()
      modifies this`edgeList, this`hierarchy, this`centroids, this`largeResult, this`graphIsReady
      ensures graphIsReady
      ensures old(CheckGraphCondition()) ==> edgeList == old(edgeList) && largeResult == old(largeResult)
      ensures !old(CheckGraphCondition()) ==> edgeList == [] && largeResult == []
      ensures var base := if old(CheckGraphCondition()) then StartHierarchy(v, old(hierarchy)) else [];
        && |base| <= |hierarchy| && hierarchy[..|base|] == base
        && (forall i :: |base| <= i < |hierarchy| ==> hierarchy[i].first < |vertices| && hierarchy[i].second < |vertices|)
        && (outcome.Finished? && !Retentive(v) ==> t == |centroids| + |hierarchy| - |base|)
        && (Retentive(v) ==> t == |hierarchy| - |base|)
      ensures outcome.Finished? && !Retentive(v) ==> forall i :: 0 <= i < |centroids| ==> centroids[i] < |vertices|
      ensures !(outcome.Finished? && !Retentive(v)) ==>
        centroids == if old(CheckGraphCondition()) then old(centroids) else []
      ensures |g.nbrs| == |vertices| && t <= |vertices|
      ensures outcome.Finished? && !v.RetainTriangulationTimesWeight? ==> t == |vertices|
      ensures outcome.Finished? && !Retentive(v) ==> forall u :: 0 <= u < |g.nbrs| ==> Degree(g, u) == 0
      ensures Retentive(v) ==> g.nbrs == g0.nbrs
      ensures NoneClustered(g0) ==> outcome != Aborted(CandidateClustered)
      ensures NoSelfLoops(g0) ==> outcome != Aborted(SelfNeighbour)
      ensures NoIsolated(g0) ==> outcome != Aborted(NullEdge)
    {
      if ClearsHierarchy(v) {
        hierarchy := [];
      }
      if !CheckGraphCondition() {
        LargeReset();
        graphIsReady := true;
      }
      var winners, h;
      outcome, g, winners, h, t := Run(v, g0, hierarchy);
      hierarchy := h;
      if outcome.Finished? && !Retentive(v) {
        centroids := winners;
      }
    }

    /** `large_graph_parse_result` (graph.cpp:1582-1621): with no centroids it
        returns before touching `large_result`; otherwise `large_result` is
        one cluster per centroid without the excluded ids and without empty
        clusters, and when `count_unique_element` finds the same positive
        number of ids in result and truth the clustering is compared with
        the truth.  `absorbed[i]` is the absorbed list of `centroids[i]`. */
    method LargeGraphParseResult(absorbed: seq<seq<nat>>) returns (tally: Option<PairTally>)
      requires |absorbed| == |centroids|
      modifies this
      ensures vertices == old(vertices) && edgeList == old(edgeList) && centroids == old(centroids)
      ensures hierarchy == old(hierarchy) && groundTruth == old(groundTruth) && excluded == old(excluded)
      ensures globalE == old(globalE) && !graphIsReady
      ensures |centroids| == 0 ==> largeResult == old(largeResult) && tally == None
      ensures |centroids| > 0 ==> largeResult == ParseSpec(centroids, absorbed, excluded)
      ensures tally.Some? <==>
        |centroids| > 0 && |Ids(largeResult)| == |Ids(groundTruth)| && Ids(largeResult) != {} && groundTruth != []
      ensures tally.Some? ==> TallyOf(groundTruth, largeResult, |Ids(largeResult)|, tally.value)
    {
      graphIsReady := false;
      tally := None;
      if |centroids| == 0 {
        return;
      }
      largeResult := ParseResult(centroids, absorbed, excluded);
      var uniq := CountUniqueElement(largeResult, groundTruth);
      if uniq > 0 {
        tally := LargeComputeClusterMatching(uniq);
      }
    }

    /** The comparison part of `LARGE_compute_cluster_matching`
        (graph.cpp:1710-1727): nothing without ground truth, otherwise the
        pair counts of the truth against `large_result` for `n` ids. */
    method LargeComputeClusterMatching(n: nat) returns (tally: Option<PairTally>)
      ensures tally.None? <==> groundTruth == []
      ensures tally.Some? ==> TallyOf(groundTruth, largeResult, n, tally.value)
    {
      if groundTruth == [] {
        return None;
      }
      var a, b, c, d := PairCounts(groundTruth, largeResult, n);
      tally := Some(PairTally(a, b, c, d));
    }

    /** `large_parse_retain_result` (graph.cpp:1626-1666): `comp` and `num` are
        what `boost::connected_components` returns for the graph on the
        vertex ids whose edges are the hierarchy pairs.  `large_result`
        becomes one cluster per component, without the excluded ids; then
        the clustering is compared with the truth and its modularity taken. */
    method LargeParseRetainResult(comp: seq<nat>, num: nat) returns (uniq: nat, tally: PairTally, q: Score)
      requires IsComponentLabelling(hierarchy, comp, num) && |comp| == |vertices|
      modifies this`graphIsReady, this`largeResult, this`globalE
      ensures vertices == old(vertices) && edgeList == old(edgeList) && centroids == old(centroids)
      ensures hierarchy == old(hierarchy) && groundTruth == old(groundTruth) && excluded == old(excluded)
      ensures !graphIsReady
      ensures |largeResult| == num
      ensures forall k :: 0 <= k < num ==> largeResult[k] == Members(comp, excluded, k, |comp|)
      ensures uniq == 0 <==> |Ids(largeResult)| != |Ids(groundTruth)| || Ids(largeResult) == {}
      ensures uniq > 0 ==> uniq == |Ids(largeResult)| && uniq == |Ids(groundTruth)|
      ensures TallyOf(groundTruth, largeResult, uniq, tally)
      ensures globalE == if old(globalE) == 0 then |edgeList| else old(globalE)
      ensures ClustersWithin(largeResult, Adj()) && q == Modularity(largeResult, Adj(), 2 * globalE)
    {
      graphIsReady := false;
      largeResult := ParseRetainResult(comp, num, excluded);
      RetainedWithin(largeResult, comp, excluded, num, Adj());
      uniq := CountUniqueElement(largeResult, groundTruth);
      var a, b, c, d := PairCounts(groundTruth, largeResult, uniq);
      tally := PairTally(a, b, c, d);
      q := ComputeModularity();
    }

    /** `large_process_overlap` on the ground truth (graph.cpp:1327-1375). */
    method LargeProcessOverlap()
      modifies this
      ensures Shrunk(groundTruth, old(groundTruth))
      ensures NoRepeats(old(groundTruth)) ==> forall x :: x in Flatten(old(groundTruth)) ==> Settled(groundTruth, x)
      ensures vertices == old(vertices) && edgeList == old(edgeList) && centroids == old(centroids)
      ensures hierarchy == old(hierarchy) && largeResult == old(largeResult) && excluded == old(excluded)
      ensures graphIsReady == old(graphIsReady) && globalE == old(globalE)
    {
      groundTruth := ProcessOverlap(groundTruth);
    }

    /** `LARGE_compute_modularity` (graph.cpp:2104-2141): `global_e` falls
        back to the edge-list size when it is 0; then every cluster adds
        `intra / m - ((intra + inter) / m)^2` with `m = 2 global_e`, counting
        each edge end of each member inside or outside the cluster. */
    method ComputeModularity() returns (q: Score)
      requires ClustersWithin(largeResult, Adj())
      modifies this`globalE
      ensures globalE == if old(globalE) == 0 then |edgeList| else old(globalE)
      ensures q == Modularity(largeResult, Adj(), 2 * globalE)
    {
      if globalE == 0 {
        globalE := |edgeList|;
      }
      var m := 2 * globalE;
      ghost var adj := Adj();
      var total := 0.0;
      var nan := false;
      var i := 0;
      while i < |largeResult|
        invariant 0 <= i <= |largeResult|
        invariant nan <==> m == 0 && i > 0
        invariant m == 2 * globalE && adj == Adj()
        invariant m > 0 ==> total == SumTerms(largeResult[..i], adj, m)
        invariant m == 0 ==> total == 0.0
      {
        var c := largeResult[i];
        var intra, inter := CountCluster(c);
        if m == 0 {
          nan := true;
        } else {
          SumTermsStep(largeResult, i, adj, m);
          total := total + Term(intra, inter, m);
        }
        i := i + 1;
      }
      assert largeResult[..i] == largeResult;
      q := if nan then NotANumber else Value(total);
    }

    /** The counts of one cluster: over each member's edges, the other ends
        that lie in the cluster (`intra`) and those that do not (`inter`)
        (graph.cpp:2115-2130). */
    method CountCluster(c: seq<nat>) returns (intra: nat, inter: nat)
      requires MembersWithin(c, Adj())
      ensures intra == Intra(c, Elements(c), Adj())
      ensures inter == Inter(c, Elements(c), Adj())
      ensures intra + inter == DegreeSum(c, Adj())
    {
      var vi := Elements(c);
      ghost var adj := Adj();
      intra, inter := 0, 0;
      var j := 0;
      while j < |c|
        invariant 0 <= j <= |c| && MembersWithin(c[..j], adj)
        invariant intra == Intra(c[..j], vi, adj) && inter == Inter(c[..j], vi, adj)
      {
        var id := c[j];
        var v := vertices[id];
        var es := v.edges;
        ghost var others := adj[id];
        assert others == NeighbourIndexes(v, es);
        NeighbourIndexesAt(v, es);
        var k := 0;
        while k < |es|
          invariant 0 <= k <= |es|
          invariant intra == Intra(c[..j], vi, adj) + Inside(others[..k], vi)
          invariant inter == Inter(c[..j], vi, adj) + Outside(others[..k], vi)
        {
          var otherId := OtherEnd(es[k], v);
          assert others[..k + 1] == others[..k] + [otherId];
          if otherId in vi {
            intra := intra + 1;
          } else {
            inter := inter + 1;
          }
          k := k + 1;
        }
        assert others[..k] == others;
        assert c[..j + 1][..j] == c[..j] && c[..j + 1][j] == id;
        j := j + 1;
      }
      assert c[..j] == c;
      IntraPlusInter(c, vi, adj);
    }
  }

  /** A vertex with no edges in the list has no neighbours. */
  lemma {:induction false} NoEnds(es: seq<(nat, nat)>, v: nat)
    requires forall k :: 0 <= k < |es| ==> es[k].0 != v && es[k].1 != v
    ensures Adjacency(es, v) == []
  {
    if es != [] {
      NoEnds(es[..|es| - 1], v);
    }
  }

  /** The `k`-th neighbour index is the other end of the `k`-th edge. */
  lemma {:induction false} NeighbourIndexesAt(v: Vertex, es: seq<Edge>)
    ensures |NeighbourIndexes(v, es)| == |es|
    ensures forall k :: 0 <= k < |es| ==> NeighbourIndexes(v, es)[k] == OtherEnd(es[k], v)
  {
    if es != [] {
      NeighbourIndexesAt(v, es[1..]);
    }
  }

  /** Constructing edge `e` from vertex `i` to vertex `j` keeps every
      vertex's lists in step with the longer edge list. */
  lemma RegisterAll(vs: seq<Vertex>, es0: seq<Edge>, e: Edge, i: nat, j: nat, lists: seq<(seq<Edge>, seq<nat>)>)
    requires IndexedVertices(vs) && i < |vs| && j < |vs| && |lists| == |vs|
    requires e.from == vs[i] && e.to == vs[j]
    requires forall v :: 0 <= v < |vs| ==>
      && NeighbourIndexes(vs[v], lists[v].0) == Adjacency(EdgePairs(es0), v)
      && InStep(vs[v], lists[v].0, lists[v].1)
    requires i != j ==>
      && vs[i].edges == lists[i].0 + [e] && vs[j].edges == lists[j].0 + [e]
      && vs[i].adj == lists[i].1 + [j] && vs[j].adj == lists[j].1 + [i]
    requires i == j ==> vs[i].edges == lists[i].0 + [e, e] && vs[i].adj == lists[i].1 + [i, i]
    requires forall v :: 0 <= v < |vs| && vs[v] != vs[i] && vs[v] != vs[j] ==>
      vs[v].edges == lists[v].0 && vs[v].adj == lists[v].1
    requires EdgePairs(es0 + [e]) == EdgePairs(es0) + [(i, j)]
    ensures InStepWith(vs, es0 + [e])
  {
    forall v | 0 <= v < |vs|
      ensures NeighbourIndexes(vs[v], vs[v].edges) == Adjacency(EdgePairs(es0 + [e]), v)
      ensures InStep(vs[v], vs[v].edges, vs[v].adj)
    {
      var w := vs[v];
      assert w.index == v;
      RegisterAt(w, EdgePairs(es0), e, i, j, lists[v].0, lists[v].1);
    }
  }

  /** Constructing edge `e` from vertex `i` to vertex `j` appends to the
      lists of vertex `w` what the pair `(i, j)` adds to its neighbours, so
      they stay in step with the edge list. */
  lemma RegisterAt(w: Vertex, pairs: seq<(nat, nat)>, e: Edge, i: nat, j: nat, edges0: seq<Edge>, adj0: seq<nat>)
    requires e.from.index == i && e.to.index == j
    requires (e.from == w) == (w.index == i) && (e.to == w) == (w.index == j)
    requires NeighbourIndexes(w, edges0) == Adjacency(pairs, w.index) && InStep(w, edges0, adj0)
    requires w.index == i && i != j ==> w.edges == edges0 + [e] && w.adj == adj0 + [j]
    requires w.index == j && i != j ==> w.edges == edges0 + [e] && w.adj == adj0 + [i]
    requires w.index == i && i == j ==> w.edges == edges0 + [e, e] && w.adj == adj0 + [i, i]
    requires w.index != i && w.index != j ==> w.edges == edges0 && w.adj == adj0
    ensures NeighbourIndexes(w, w.edges) == Adjacency(pairs + [(i, j)], w.index)
    ensures InStep(w, w.edges, w.adj)
  {
    if w.index == i && i == j {
      RegisterSelfLoop(w, pairs, e, edges0, adj0);
    } else if w.index == i {
      RegisterEnd(w, pairs, e, (i, j), j, edges0, adj0);
    } else if w.index == j {
      RegisterEnd(w, pairs, e, (i, j), i, edges0, adj0);
    } else {
      AdjacencySnoc(pairs, (i, j), w.index);
      assert Adjacency(pairs, w.index) + [] == Adjacency(pairs, w.index);
    }
  }

  /** An edge with `w` at one end only adds its other end to `w`'s lists. */
  lemma RegisterEnd(w: Vertex, pairs: seq<(nat, nat)>, e: Edge, p: (nat, nat), other: nat, edges0: seq<Edge>, adj0: seq<nat>)
    requires e.from == w || e.to == w
    requires OtherEnd(e, w) == other && Ends(p, w.index) == [other]
    requires NeighbourIndexes(w, edges0) == Adjacency(pairs, w.index) && InStep(w, edges0, adj0)
    ensures NeighbourIndexes(w, edges0 + [e]) == Adjacency(pairs + [p], w.index)
    ensures InStep(w, edges0 + [e], adj0 + [other])
  {
    AdjacencySnoc(pairs, p, w.index);
    InStepAppend(w, edges0, adj0, e);
    NeighbourIndexesAppend(w, edges0, [e]);
    assert NeighbourIndexes(w, [e]) == [other] by { assert [e][1..] == []; }
  }

  /** A self-loop at `w` adds `w` itself to its lists twice. */
  lemma RegisterSelfLoop(w: Vertex, pairs: seq<(nat, nat)>, e: Edge, edges0: seq<Edge>, adj0: seq<nat>)
    requires e.from == w && e.to == w
    requires NeighbourIndexes(w, edges0) == Adjacency(pairs, w.index) && InStep(w, edges0, adj0)
    ensures NeighbourIndexes(w, edges0 + [e, e]) == Adjacency(pairs + [(w.index, w.index)], w.index)
    ensures InStep(w, edges0 + [e, e], adj0 + [w.index, w.index])
  {
    var i := w.index;
    SelfLoopNeighbours(w, e, edges0);
    AdjacencySnoc(pairs, (i, i), i);
    SelfLoopInStep(w, e, edges0, adj0);
  }

  lemma SelfLoopNeighbours(w: Vertex, e: Edge, edges0: seq<Edge>)
    requires e.from == w && e.to == w
    ensures NeighbourIndexes(w, edges0 + [e, e]) == NeighbourIndexes(w, edges0) + [w.index, w.index]
  {
    NeighbourIndexesAppend(w, edges0, [e, e]);
    assert [e][1..] == [] && OtherEnd(e, w) == w.index;
    assert NeighbourIndexes(w, [e]) == [w.index];
    assert [e, e][1..] == [e];
  }

  lemma SelfLoopInStep(w: Vertex, e: Edge, edges0: seq<Edge>, adj0: seq<nat>)
    requires e.from == w && e.to == w
    requires InStep(w, edges0, adj0)
    requires NeighbourIndexes(w, edges0 + [e, e]) == NeighbourIndexes(w, edges0) + [w.index, w.index]
    ensures InStep(w, edges0 + [e, e], adj0 + [w.index, w.index])
  {
    var i := w.index;
    forall x | x in edges0 + [e, e] ensures x.from == w || x.to == w {
    }
    assert multiset(adj0 + [i, i]) == multiset(adj0) + multiset([i, i]);
    assert multiset(NeighbourIndexes(w, edges0) + [i, i]) == multiset(NeighbourIndexes(w, edges0)) + multiset([i, i]);
  }

  /** A fresh vertex with the next index and no edges keeps the registrations in step. */
  lemma AppendVertex(vs: seq<Vertex>, es: seq<Edge>, v: Vertex)
    requires IndexedVertices(vs) && EdgesListed(vs, es) && InStepWith(vs, es)
    requires v.index == |vs| && v.edges == [] && v.adj == []
    ensures IndexedVertices(vs + [v]) && EdgesListed(vs + [v], es) && InStepWith(vs + [v], es)
  {
    var vs' := vs + [v];
    forall i | 0 <= i < |vs'| ensures vs'[i].index == i {
      if i < |vs| {
        assert vs'[i] == vs[i];
      }
    }
    forall k | 0 <= k < |es|
      ensures es[k].from.index < |vs'| && vs'[es[k].from.index] == es[k].from
      ensures es[k].to.index < |vs'| && vs'[es[k].to.index] == es[k].to
    {
      assert vs'[es[k].from.index] == vs[es[k].from.index];
      assert vs'[es[k].to.index] == vs[es[k].to.index];
    }
    NoEndsAtNewVertex(vs, es, v.index);
    forall i | 0 <= i < |vs'|
      ensures NeighbourIndexes(vs'[i], vs'[i].edges) == Adjacency(EdgePairs(es), i)
      ensures InStep(vs'[i], vs'[i].edges, vs'[i].adj)
    {
      if i < |vs| {
        assert vs'[i] == vs[i];
      } else {
        assert vs'[i] == v;
      }
    }
  }

  /** No listed edge touches an index past the vertex list. */
  lemma NoEndsAtNewVertex(vs: seq<Vertex>, es: seq<Edge>, n: nat)
    requires EdgesListed(vs, es) && n == |vs|
    ensures Adjacency(EdgePairs(es), n) == []
  {
    var ps := EdgePairs(es);
    forall k | 0 <= k < |ps| ensures ps[k].0 != n && ps[k].1 != n {
      assert ps[k] == (es[k].from.index, es[k].to.index);
    }
    NoEnds(ps, n);
  }

  /** Listing a new edge between two listed vertices keeps every edge listed. */
  lemma EdgesListedAppend(vs: seq<Vertex>, es: seq<Edge>, e: Edge)
    requires EdgesListed(vs, es) && IndexedVertices(vs)
    requires e.from in vs && e.to in vs
    ensures EdgesListed(vs, es + [e])
  {
    var i :| 0 <= i < |vs| && vs[i] == e.from;
    var j :| 0 <= j < |vs| && vs[j] == e.to;
    forall k | 0 <= k < |es + [e]| ensures (es + [e])[k] == if k < |es| then es[k] else e {
    }
  }

  /** The clusters built from a labelling of all the graph's vertices name
      only vertices of the graph. */
  lemma RetainedWithin(clusters: seq<seq<nat>>, comp: seq<nat>, excluded: set<nat>, num: nat, adj: seq<seq<nat>>)
    requires |adj| == |comp| && |clusters| == num
    requires forall k :: 0 <= k < num ==> clusters[k] == Members(comp, excluded, k, |comp|)
    ensures ClustersWithin(clusters, adj)
  {
    forall k | 0 <= k < num ensures MembersWithin(clusters[k], adj) {
      MembersSpec(comp, excluded, k, |comp|);
      assert forall l :: 0 <= l < |clusters[k]| ==> clusters[k][l] in clusters[k];
    }
  }

  /** With its registrations in step, the graph's neighbour lists are those of
      its edge list read as index pairs. */
  lemma RegisteredAdjacency(g: Graph)
    requires g.Indexed() && g.Registered()
    ensures g.Adj() == AdjList(EdgePairs(g.edgeList), |g.vertices|)
  {
  }

  /** A graph of `n` vertices with indices `0 .. n - 1`, joined by one edge
      per index pair of `pairs`, in order (graph.cpp:1081-1094); `global_e`
      is still 0. */
  method NewGraph(n: nat, pairs: seq<(nat, nat)>) returns (g: Graph)
    requires forall k :: 0 <= k < |pairs| ==> pairs[k].0 < n && pairs[k].1 < n
    ensures fresh(g) && g.Indexed() && g.Registered()
    ensures |g.vertices| == n && g.globalE == 0 && EdgePairs(g.edgeList) == pairs
    ensures g.Adj() == AdjList(pairs, n)
  {
    g := new Graph();
    var k := 0;
    while k < n
      invariant 0 <= k <= n && |g.vertices| == k && g.edgeList == [] && g.globalE == 0
      invariant fresh(g) && forall v :: v in g.vertices ==> fresh(v)
      invariant g.Indexed() && g.Registered()
    {
      var v := g.AddVertex();
      k := k + 1;
    }
    g.AddEdges(pairs);
    NoPairsBefore([], pairs);
    RegisteredAdjacency(g);
  }
}
