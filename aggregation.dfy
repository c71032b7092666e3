/** The random-aggregation loops of graph.cpp (`random_aggregate*`, sixteen
    variants).  Each variant repeats one step while its `players` list is
    non-empty: it picks a candidate, and either declares it a winner (it has
    no edges) or picks a neighbour, decides winner and loser, appends one
    pair to `hierarchy` and removes the loser from `players`.  The model is a
    single driver whose policies are looked up per variant; every random draw
    is a nondeterministic choice. */
module Aggregation {
  import opened Lists

  /** The sixteen variants, in the order graph.cpp defines them. */
  datatype Variant =
    | Uniform                               // I.a   random_aggregate
    | DegreeComparison                      // I.b   random_aggregate_with_degree_comparison
    | WeightComparison                      // I.c   random_aggregate_with_weight_comparison
    | NeighbourInitialDegreeBias            // II.a  random_aggregate_with_neighbour_initial_degree_bias
    | NeighbourCurrentDegreeBias            // II.b  random_aggregate_with_neighbour_CURRENT_degree_bias
    | HighestCurrentDegreeNeighbour         // II.c  random_aggregate_highest_CURRENT_degree_neighbour
    | MinimumWeightNeighbour                // II.d  random_aggregate_with_minimum_weight_neighbour
    | ProbabilisticLowestDegreeNeighbour    // II.e  random_aggregate_probabilistic_lowest_degree_neighbour_destructive
    | ProbabilisticMinimumWeightNeighbour   // II.f  random_aggregate_probabilistic_candidate_with_minimum_weight_neighbour
    | GreedyMaxDegree                       // II.g  random_aggregate_greedy_max_degree
    | GreedyMaxWeight                       // II.h  random_aggregate_greedy_max_weight
    | HighestTriangulatedVertex             // III.c random_aggregate_with_highest_triangulated_vertex
    | RetainTriangulation                   // III.a random_aggregate_retain_vertex_using_triangulation
    | RetainProbabilisticTriangulation      // III.b random_aggregate_retain_vertex_using_probabilistic_triangulation
    | RetainTriangulationTimesWeight        // III.d random_aggregate_retain_vertex_using_triangulation_times_weight
    | RetainTriangulationOfCluster          // III.e random_aggregate_retain_vertex_using_triangulation_of_cluster

  datatype Metric = ByDegree | ByWeight

  /** How the candidate is drawn. */
  datatype CandidatePolicy =
    | UniformPick          // uniformly from `players`
    | MaxTie(m: Metric)    // uniformly from the players of maximal degree or weight
    | Weighted(m: Metric)  // from a list holding each player deg(v) or w(v) times

  /** How winner and loser are decided once the neighbour is known. */
  datatype Comparator =
    | CandidateWins        // the candidate absorbs the neighbour
    | Compare(m: Metric)   // the candidate wins when its metric is >= the neighbour's
    | NeighbourWins        // retentive variants: the neighbour absorbs the candidate

  /** The order of the pair appended to `hierarchy`. */
  datatype Orientation = LoserWinner | WinnerLoser | NeighbourSelected

  /** What the variant writes into the weights before the loop. */
  datatype WeightInit = KeepWeights | DegreeWeights | UnitWeights

  function Candidates(v: Variant): CandidatePolicy
  {
    match v
    case ProbabilisticLowestDegreeNeighbour => Weighted(ByDegree)
    case ProbabilisticMinimumWeightNeighbour => Weighted(ByWeight)
    case GreedyMaxDegree => MaxTie(ByDegree)
    case GreedyMaxWeight => MaxTie(ByWeight)
    case _ => UniformPick
  }

  /** Retentive variants keep the absorbed vertex and its edges in the graph. */
  predicate Retentive(v: Variant)
  {
    v.RetainTriangulation? || v.RetainProbabilisticTriangulation?
    || v.RetainTriangulationTimesWeight? || v.RetainTriangulationOfCluster?
  }

  function Decider(v: Variant): Comparator
  {
    if Retentive(v) then NeighbourWins
    else if v.DegreeComparison? || v.HighestCurrentDegreeNeighbour? then Compare(ByDegree)
    else if v.WeightComparison? || v.HighestTriangulatedVertex? then Compare(ByWeight)
    else CandidateWins
  }

  function Recording(v: Variant): Orientation
  {
    if v.ProbabilisticLowestDegreeNeighbour? || v.ProbabilisticMinimumWeightNeighbour?
       || v.GreedyMaxDegree? || v.GreedyMaxWeight? then WinnerLoser
    else if v.HighestCurrentDegreeNeighbour? then NeighbourSelected
    else LoserWinner
  }

  function Initialisation(v: Variant): WeightInit
  {
    if v.WeightComparison? || v.NeighbourInitialDegreeBias? || v.MinimumWeightNeighbour?
       || v.ProbabilisticMinimumWeightNeighbour? || v.GreedyMaxWeight?
       || v.HighestTriangulatedVertex? || v.RetainTriangulationOfCluster? then DegreeWeights
    else if v.RetainTriangulationTimesWeight? then UnitWeights
    else KeepWeights
  }

  /** II.f and II.h set w(winner) to w(loser) + w(winner) after each merge. */
  predicate AccumulatesWeight(v: Variant)
  {
    v.ProbabilisticMinimumWeightNeighbour? || v.GreedyMaxWeight?
  }

  /** The III.* variants start by clearing `hierarchy`. */
  predicate ClearsHierarchy(v: Variant)
  {
    v.HighestTriangulatedVertex? || Retentive(v)
  }

  /** A pair of vertex indices appended to `hierarchy`. */
  datatype Pair = Pair(first: nat, second: nat)

  /** The pair a merge appends, in the variant's order. */
  function Record(o: Orientation, selected: nat, neighbour: nat, winner: nat, loser: nat): (p: Pair)
    ensures o == NeighbourSelected ==> p == Pair(neighbour, selected)
    ensures o != NeighbourSelected ==> {p.first, p.second} == {winner, loser}
    ensures o == LoserWinner ==> p.second == winner
    ensures o == WinnerLoser ==> p.first == winner
  {
    match o
    case LoserWinner => Pair(loser, winner)
    case WinnerLoser => Pair(winner, loser)
    case NeighbourSelected => Pair(neighbour, selected)
  }

  // ---------------------------------------------------------------------------
  // The graph as the loop sees it

  /** What the loop reads of the vertices: each vertex's neighbours (one
      entry per incident edge, so the degree is the length), its weight, and
      whether it is already clustered (`is_vertex_absorbed() || getParent() != 0`). */
  datatype Snapshot = Snapshot(nbrs: seq<seq<nat>>, weight: seq<nat>, clustered: seq<bool>)

  predicate WellFormed(s: Snapshot)
  {
    && |s.weight| == |s.nbrs|
    && |s.clustered| == |s.nbrs|
    && (forall u, x :: 0 <= u < |s.nbrs| && x in s.nbrs[u] ==> x < |s.nbrs|)
  }

  /** Every edge is listed at both ends. */
  predicate Symmetric(s: Snapshot)
    requires WellFormed(s)
  {
    forall u, x :: 0 <= u < |s.nbrs| && x in s.nbrs[u] ==> u in s.nbrs[x]
  }

  predicate NoSelfLoops(s: Snapshot)
  {
    forall u :: 0 <= u < |s.nbrs| ==> u !in s.nbrs[u]
  }

  function Degree(s: Snapshot, u: nat): nat
    requires u < |s.nbrs|
  {
    |s.nbrs[u]|
  }

  function MetricOf(m: Metric, s: Snapshot, u: nat): nat
    requires u < |s.nbrs| && |s.weight| == |s.nbrs|
  {
    match m
    case ByDegree => Degree(s, u)
    case ByWeight => s.weight[u]
  }

  /** The degrees or weights of all vertices, indexed by vertex. */
  function Metrics(m: Metric, s: Snapshot): (r: seq<nat>)
    requires |s.weight| == |s.nbrs|
    ensures |r| == |s.nbrs|
    ensures forall u :: 0 <= u < |r| ==> r[u] == MetricOf(m, s, u)
  {
    seq(|s.nbrs|, u requires 0 <= u < |s.nbrs| => MetricOf(m, s, u))
  }

  /** The contract of the unseen `absorb_removeEdge` (destructive merge):
      the loser is left with no edges, no vertex other than the winner gains
      edges, the graph stays symmetric and loop-free, weights are kept, and
      only the loser's clustered flag may change. */
  predicate AbsorbPost(s: Snapshot, s': Snapshot, winner: nat, loser: nat)
    requires WellFormed(s)
  {
    && WellFormed(s')
    && |s'.nbrs| == |s.nbrs|
    && (Symmetric(s) ==> Symmetric(s'))
    && (NoSelfLoops(s) ==> NoSelfLoops(s'))
    && (loser < |s'.nbrs| ==> s'.nbrs[loser] == [])
    && (forall u :: 0 <= u < |s.nbrs| && u != winner ==> |s'.nbrs[u]| <= |s.nbrs[u]|)
    && s'.weight == s.weight
    && (forall u :: 0 <= u < |s.nbrs| && u != loser ==> s'.clustered[u] == s.clustered[u])
  }

  /** `xs` without any occurrence of `x`. */
  function Without(xs: seq<nat>, x: nat): (r: seq<nat>)
    ensures |r| <= |xs|
    ensures forall y :: y in r <==> y in xs && y != x
  {
    if xs == [] then []
    else if xs[0] == x then Without(xs[1..], x)
    else [xs[0]] + Without(xs[1..], x)
  }

  /** One graph that meets the absorb contract: every edge of the loser deleted. */
  function Isolate(s: Snapshot, loser: nat): (r: Snapshot)
    requires WellFormed(s)
    ensures AbsorbPost(s, r, loser, loser)
  {
    var n := |s.nbrs|;
    var r := Snapshot(seq(n, u requires 0 <= u < n => if u == loser then [] else Without(s.nbrs[u], loser)),
                      s.weight, s.clustered);
    assert Symmetric(s) ==> Symmetric(r) by {
      if Symmetric(s) {
        forall u, x | 0 <= u < n && x in r.nbrs[u] ensures u in r.nbrs[x] {
          assert x in s.nbrs[u];
        }
      }
    }
    r
  }

  /** The absorb contract can always be met, whoever wins. */
  lemma AbsorbPossible(s: Snapshot, winner: nat, loser: nat)
    requires WellFormed(s)
    ensures AbsorbPost(s, Isolate(s, loser), winner, loser)
  {
  }

  // ---------------------------------------------------------------------------
  // Candidate lists

  /** The largest metric over `players`, starting from 0 as `max_d` does. */
  function MaxMetric(players: seq<nat>, metric: seq<nat>): nat
    requires forall i :: 0 <= i < |players| ==> players[i] < |metric|
  {
    if players == [] then 0
    else
      var m := MaxMetric(players[..|players| - 1], metric);
      var last := metric[players[|players| - 1]];
      if last > m then last else m
  }

  /** The players whose metric is `m`, in order. */
  function Ties(players: seq<nat>, metric: seq<nat>, m: nat): seq<nat>
    requires forall i :: 0 <= i < |players| ==> players[i] < |metric|
  {
    if players == [] then []
    else
      var p := players[|players| - 1];
      Ties(players[..|players| - 1], metric, m) + (if metric[p] == m then [p] else [])
  }

  lemma {:induction false} MaxMetricBound(players: seq<nat>, metric: seq<nat>)
    requires forall i :: 0 <= i < |players| ==> players[i] < |metric|
    ensures forall p :: p in players ==> metric[p] <= MaxMetric(players, metric)
  {
    if players != [] {
      var init := players[..|players| - 1];
      MaxMetricBound(init, metric);
      assert players == init + [players[|players| - 1]];
    }
  }

  /** With `max_d` starting at 0, the maximum is either 0 or some player's metric. */
  lemma {:induction false} MaxMetricAttained(players: seq<nat>, metric: seq<nat>)
    requires forall i :: 0 <= i < |players| ==> players[i] < |metric|
    ensures MaxMetric(players, metric) == 0 || exists p :: p in players && metric[p] == MaxMetric(players, metric)
  {
    if players != [] {
      var init := players[..|players| - 1];
      MaxMetricAttained(init, metric);
      assert players == init + [players[|players| - 1]];
    }
  }

  lemma {:induction false} TiesMember(players: seq<nat>, metric: seq<nat>, m: nat, x: nat)
    requires forall i :: 0 <= i < |players| ==> players[i] < |metric|
    ensures x in Ties(players, metric, m) <==> x in players && metric[x] == m
  {
    if players != [] {
      var init := players[..|players| - 1];
      TiesMember(init, metric, m, x);
      assert players == init + [players[|players| - 1]];
    }
  }

  /** The tie list of a non-empty player list is non-empty and holds exactly
      the players whose metric is the maximum over all players. */
  lemma TieListSpec(players: seq<nat>, metric: seq<nat>)
    requires forall i :: 0 <= i < |players| ==> players[i] < |metric|
    ensures forall x: nat :: x in Ties(players, metric, MaxMetric(players, metric))
                    <==> x in players && forall q :: q in players ==> metric[q] <= metric[x]
    ensures players != [] ==> Ties(players, metric, MaxMetric(players, metric)) != []
  {
    var m := MaxMetric(players, metric);
    MaxMetricBound(players, metric);
    MaxMetricAttained(players, metric);
    forall x: nat ensures x in Ties(players, metric, m) <==> x in players && forall q :: q in players ==> metric[q] <= metric[x] {
      TiesMember(players, metric, m, x);
      if x in players && forall q :: q in players ==> metric[q] <= metric[x] {
        if m != 0 {
          var p :| p in players && metric[p] == m;
          assert metric[p] <= metric[x];
        }
      }
    }
    if players != [] {
      var x := players[0];
      if m == 0 {
        TiesMember(players, metric, m, x);
      } else {
        var p :| p in players && metric[p] == m;
        TiesMember(players, metric, m, p);
      }
    }
  }

  /** The tie-list loop of II.g and II.h (graph.cpp:638-654, 714-730). */
  method TieList(players: seq<nat>, metric: seq<nat>) returns (list: seq<nat>)
    requires forall i :: 0 <= i < |players| ==> players[i] < |metric|
    ensures list == Ties(players, metric, MaxMetric(players, metric))
  {
    list := [];
    var maxValue := 0;
    var i := 0;
    while i < |players|
      invariant 0 <= i <= |players|
      invariant maxValue == MaxMetric(players[..i], metric)
      invariant list == Ties(players[..i], metric, maxValue)
    {
      var v := players[i];
      assert players[..i + 1] == players[..i] + [v];
      assert players[..i + 1][..i] == players[..i];
      var dv := metric[v];
      if dv > maxValue {
        MaxMetricBound(players[..i], metric);
        NoTiesAbove(players[..i], metric, dv);
        maxValue := dv;
        list := [v];
      } else if dv == maxValue {
        list := list + [v];
      }
      i := i + 1;
    }
    assert players[..i] == players;
  }

  lemma {:induction false} NoTiesAbove(players: seq<nat>, metric: seq<nat>, m: nat)
    requires forall i :: 0 <= i < |players| ==> players[i] < |metric| && metric[players[i]] < m
    ensures Ties(players, metric, m) == []
  {
    if players != [] {
      NoTiesAbove(players[..|players| - 1], metric, m);
    }
  }

  /** `k` copies of `x`. */
  function Copies(x: nat, k: nat): seq<nat>
  {
    if k == 0 then [] else Copies(x, k - 1) + [x]
  }

  /** Each player repeated metric-many times, in order (`ran_list`). */
  function Repeated(players: seq<nat>, metric: seq<nat>): seq<nat>
    requires forall i :: 0 <= i < |players| ==> players[i] < |metric|
  {
    if players == [] then []
    else
      var p := players[|players| - 1];
      Repeated(players[..|players| - 1], metric) + Copies(p, metric[p])
  }

  lemma {:induction false} CopiesCount(x: nat, k: nat, y: nat)
    ensures multiset(Copies(x, k))[y] == if y == x then k else 0
  {
    if k > 0 {
      CopiesCount(x, k - 1, y);
    }
  }

  /** Sum of the metrics of the players, counted with repetition. */
  function TotalMetric(players: seq<nat>, metric: seq<nat>): nat
    requires forall i :: 0 <= i < |players| ==> players[i] < |metric|
  {
    if players == [] then 0
    else TotalMetric(players[..|players| - 1], metric) + metric[players[|players| - 1]]
  }

  /** The weighted list holds each player exactly deg(v) or w(v) times per
      occurrence in `players`. */
  lemma {:induction false} RepeatedCount(players: seq<nat>, metric: seq<nat>, x: nat)
    requires forall i :: 0 <= i < |players| ==> players[i] < |metric|
    ensures multiset(Repeated(players, metric))[x]
         == multiset(players)[x] * (if x < |metric| then metric[x] else 0)
  {
    if players != [] {
      var init: seq<nat> := players[..|players| - 1];
      var p: nat := players[|players| - 1];
      var mx: nat := if x < |metric| then metric[x] else 0;
      RepeatedCount(init, metric, x);
      CopiesCount(p, metric[p], x);
      RepeatedSnocCount(players, metric, x);
      CountStep(multiset(init)[x], x == p, mx);
    }
  }

  /** The counts of `x` in `players` and in its weighted list, split at the last player. */
  lemma RepeatedSnocCount(players: seq<nat>, metric: seq<nat>, x: nat)
    requires forall i :: 0 <= i < |players| ==> players[i] < |metric|
    requires players != []
    ensures var init, p := players[..|players| - 1], players[|players| - 1];
      && multiset(players)[x] == multiset(init)[x] + (if x == p then 1 else 0)
      && multiset(Repeated(players, metric))[x] == multiset(Repeated(init, metric))[x] + multiset(Copies(p, metric[p]))[x]
  {
    var init, p := players[..|players| - 1], players[|players| - 1];
    assert players == init + [p];
  }

  /** One more occurrence adds `mx` copies. */
  lemma CountStep(a: nat, hit: bool, mx: nat)
    ensures a * mx + (if hit then mx else 0) == (a + (if hit then 1 else 0)) * mx
  {
    if hit {
      Distribute(a, 1, mx);
    }
  }

  lemma Distribute(a: nat, c: nat, m: nat)
    ensures a * m + c * m == (a + c) * m
  {
  }

  /** The weighted list is as long as the sum of the players' metrics. */
  lemma {:induction false} RepeatedLength(players: seq<nat>, metric: seq<nat>)
    requires forall i :: 0 <= i < |players| ==> players[i] < |metric|
    ensures |Repeated(players, metric)| == TotalMetric(players, metric)
  {
    if players != [] {
      var p := players[|players| - 1];
      RepeatedLength(players[..|players| - 1], metric);
      CopiesLength(p, metric[p]);
    }
  }

  lemma {:induction false} CopiesLength(x: nat, k: nat)
    ensures |Copies(x, k)| == k
  {
    if k > 0 {
      CopiesLength(x, k - 1);
    }
  }

  /** A value is in the weighted list exactly when it is a player with a positive metric. */
  lemma RepeatedMember(players: seq<nat>, metric: seq<nat>, x: nat)
    requires forall i :: 0 <= i < |players| ==> players[i] < |metric|
    ensures x in Repeated(players, metric) <==> x in players && metric[x] > 0
  {
    RepeatedCount(players, metric, x);
    var a := multiset(players)[x];
    var mx := if x < |metric| then metric[x] else 0;
    ProductPositive(a, mx);
    assert x in Repeated(players, metric) <==> multiset(Repeated(players, metric))[x] > 0;
    assert x in players <==> a > 0;
  }

  lemma ProductPositive(a: nat, b: nat)
    ensures a * b > 0 <==> a > 0 && b > 0
  {
    if a > 0 && b > 0 {
      assert a * b >= b by { Distribute(a - 1, 1, b); }
    }
  }

  /** The weighted-list loops of II.e and II.f (graph.cpp:483-489, 561-568). */
  method WeightedList(players: seq<nat>, metric: seq<nat>) returns (list: seq<nat>)
    requires forall i :: 0 <= i < |players| ==> players[i] < |metric|
    ensures list == Repeated(players, metric)
  {
    list := [];
    var i := 0;
    while i < |players|
      invariant 0 <= i <= |players|
      invariant list == Repeated(players[..i], metric)
    {
      var v := players[i];
      var j := 0;
      while j < metric[v]
        invariant 0 <= j <= metric[v]
        invariant list == Repeated(players[..i], metric) + Copies(v, j)
      {
        list := list + [v];
        j := j + 1;
      }
      assert players[..i + 1] == players[..i] + [v];
      assert players[..i + 1][..i] == players[..i];
      i := i + 1;
    }
    assert players[..i] == players;
  }

  // ---------------------------------------------------------------------------
  // One iteration of the loop

  /** Why a variant returns early. */
  datatype Failure =
    | CandidateClustered   // I.a: the drawn candidate is already absorbed or has a parent
    | SelfNeighbour        // III.c: the chosen edge leads back to the candidate
    | NullEdge             // III.a, III.b, III.e: the edge helper has nothing to return

  /** What one iteration did. */
  datatype Event =
    | Declared(candidate: nat)                                         // no edges: a winner
    | Merged(candidate: nat, neighbour: nat, winner: nat, loser: nat)  // one pair recorded
    | Dropped(candidate: nat)                                          // III.d: null edge, parent set to itself
    | Fatal(candidate: nat, failure: Failure)

  /** The vertex an iteration takes out of `players`. */
  function Removed(ev: Event): nat
  {
    match ev
    case Declared(c) => c
    case Merged(_, _, _, l) => l
    case Dropped(c) => c
    case Fatal(c, _) => c
  }

  /** The loop's state: the graph, the remaining players, the winners and `hierarchy`. */
  datatype State = State(g: Snapshot, players: seq<nat>, winners: seq<nat>, hierarchy: seq<Pair>)

  /** What holds at the top of every iteration: the graph is well formed and
      symmetric, the players are distinct vertices, in the destructive variants every
      vertex that left `players` has no edges, and in II.f a player of weight
      0 has no edges. */
  ghost predicate Core(v: Variant, st: State)
  {
    && WellFormed(st.g)
    && Symmetric(st.g)
    && (forall i :: 0 <= i < |st.players| ==> st.players[i] < |st.g.nbrs|)
    && (forall x :: multiset(st.players)[x] <= 1)
    && (!Retentive(v) ==> forall u :: 0 <= u < |st.g.nbrs| && u !in st.players ==> Degree(st.g, u) == 0)
    && (v.ProbabilisticMinimumWeightNeighbour? ==>
          forall u :: u in st.players && st.g.weight[u] == 0 ==> Degree(st.g, u) == 0)
  }

  /** No player is marked as clustered. */
  ghost predicate PlayersUnclustered(st: State)
    requires WellFormed(st.g)
    requires forall i :: 0 <= i < |st.players| ==> st.players[i] < |st.g.nbrs|
  {
    forall i :: 0 <= i < |st.players| ==> !st.g.clustered[st.players[i]]
  }

  /** Winner and loser of a merge: the candidate wins ties under `>=`. */
  function Decide(c: Comparator, g: Snapshot, selected: nat, neighbour: nat): (r: (nat, nat))
    requires selected < |g.nbrs| && neighbour < |g.nbrs| && |g.weight| == |g.nbrs|
    ensures (r.0 == selected && r.1 == neighbour) || (r.0 == neighbour && r.1 == selected)
    ensures c.Compare? && selected != neighbour ==>
              (r.0 == selected <==> MetricOf(c.m, g, selected) >= MetricOf(c.m, g, neighbour))
    ensures c.CandidateWins? ==> r == (selected, neighbour)
    ensures c.NeighbourWins? ==> r == (neighbour, selected)
  {
    match c
    case CandidateWins => (selected, neighbour)
    case NeighbourWins => (neighbour, selected)
    case Compare(m) =>
      if MetricOf(m, g, selected) >= MetricOf(m, g, neighbour) then (selected, neighbour)
      else (neighbour, selected)
  }

  /** Draws the candidate by the variant's policy.  `fallback` reports that
      the weighted list was empty and the candidate was drawn uniformly. */
  method PickCandidate(v: Variant, st: State) returns (selected: nat, fallback: bool)
    requires WellFormed(st.g)
    requires forall i :: 0 <= i < |st.players| ==> st.players[i] < |st.g.nbrs|
    requires st.players != []
    ensures selected in st.players
    ensures fallback ==> Candidates(v).Weighted? && Repeated(st.players, Metrics(Candidates(v).m, st.g)) == []
    ensures Candidates(v).MaxTie? ==>
              forall i :: 0 <= i < |st.players| ==>
                MetricOf(Candidates(v).m, st.g, st.players[i]) <= MetricOf(Candidates(v).m, st.g, selected)
    ensures Candidates(v).Weighted? && !fallback ==> MetricOf(Candidates(v).m, st.g, selected) > 0
    ensures !Candidates(v).Weighted? ==> !fallback
  {
    fallback := false;
    match Candidates(v)
    case UniformPick =>
      var k :| 0 <= k < |st.players|;
      selected := st.players[k];
    case MaxTie(m) =>
      var list := TieList(st.players, Metrics(m, st.g));
      TopMetricNonEmpty(m, st.g, st.players);
      var k :| 0 <= k < |list|;
      selected := list[k];
      TopMetric(m, st.g, st.players, selected);
    case Weighted(m) =>
      var list := WeightedList(st.players, Metrics(m, st.g));
      if list == [] {
        var k :| 0 <= k < |st.players|;
        selected := st.players[k];
        fallback := true;
      } else {
        var k :| 0 <= k < |list|;
        selected := list[k];
        WeightedPositive(m, st.g, st.players, selected);
      }
  }

  /** Some player has the largest metric. */
  lemma TopMetricNonEmpty(m: Metric, g: Snapshot, players: seq<nat>)
    requires |g.weight| == |g.nbrs| && players != []
    requires forall i :: 0 <= i < |players| ==> players[i] < |g.nbrs|
    ensures Ties(players, Metrics(m, g), MaxMetric(players, Metrics(m, g))) != []
  {
    TieListSpec(players, Metrics(m, g));
  }

  /** A member of the tie list is a player whose metric no player exceeds. */
  lemma TopMetric(m: Metric, g: Snapshot, players: seq<nat>, selected: nat)
    requires |g.weight| == |g.nbrs|
    requires forall i :: 0 <= i < |players| ==> players[i] < |g.nbrs|
    requires selected in Ties(players, Metrics(m, g), MaxMetric(players, Metrics(m, g)))
    ensures selected in players && selected < |g.nbrs|
    ensures forall i :: 0 <= i < |players| ==> MetricOf(m, g, players[i]) <= MetricOf(m, g, selected)
  {
    var metric := Metrics(m, g);
    TieListSpec(players, metric);
    forall i | 0 <= i < |players| ensures metric[players[i]] <= metric[selected] {
      assert players[i] in players;
    }
  }

  /** A member of the weighted list is a player of positive metric. */
  lemma WeightedPositive(m: Metric, g: Snapshot, players: seq<nat>, selected: nat)
    requires |g.weight| == |g.nbrs|
    requires forall i :: 0 <= i < |players| ==> players[i] < |g.nbrs|
    requires selected in Repeated(players, Metrics(m, g))
    ensures selected in players && selected < |g.nbrs| && MetricOf(m, g, selected) > 0
  {
    RepeatedMember(players, Metrics(m, g), selected);
  }

  /** The new weights after a merge: II.f and II.h give the winner the sum of both weights. */
  function MergedWeights(v: Variant, weight: seq<nat>, winner: nat, loser: nat): seq<nat>
    requires winner < |weight| && loser < |weight|
  {
    if AccumulatesWeight(v) then weight[winner := weight[loser] + weight[winner]] else weight
  }

  /** The merge of a destructive variant: `winner->absorb_removeEdge(e)`,
      the weight update of II.f and II.h, the pair appended to `hierarchy` and
      `players.removeOne(loser)`. */
  method DestructiveMerge(v: Variant, st: State, selected: nat, neighbour: nat) returns (next: State, ev: Event)
    requires !Retentive(v) && Core(v, st)
    requires selected in st.players && neighbour in st.g.nbrs[selected]
    requires v.ProbabilisticMinimumWeightNeighbour? ==> st.g.weight[selected] > 0
    ensures ev == Merged(selected, neighbour, Decide(Decider(v), st.g, selected, neighbour).0,
                         Decide(Decider(v), st.g, selected, neighbour).1)
    ensures next.hierarchy == st.hierarchy + [Record(Recording(v), selected, neighbour, ev.winner, ev.loser)]
    ensures next.winners == st.winners
    ensures next.players == RemoveOne(st.players, ev.loser) && ev.loser in st.players
    ensures |next.players| == |st.players| - 1
    ensures AbsorbPost(st.g, next.g.(weight := st.g.weight), ev.winner, ev.loser)
    ensures next.g.weight == MergedWeights(v, st.g.weight, ev.winner, ev.loser)
    ensures Core(v, next)
    ensures NoSelfLoops(st.g) ==> NoSelfLoops(next.g)
    ensures PlayersUnclustered(st) ==> PlayersUnclustered(next)
  {
    NeighbourIsPlayer(v, st, selected, neighbour);
    var (winner, loser) := Decide(Decider(v), st.g, selected, neighbour);
    AbsorbPossible(st.g, winner, loser);
    var absorbed :| AbsorbPost(st.g, absorbed, winner, loser);
    next := State(absorbed.(weight := MergedWeights(v, st.g.weight, winner, loser)),
                  RemoveOne(st.players, loser), st.winners,
                  st.hierarchy + [Record(Recording(v), selected, neighbour, winner, loser)]);
    ev := Merged(selected, neighbour, winner, loser);
    MergeKeepsCore(v, st, winner, loser, absorbed, next);
  }

  /** In a destructive variant a neighbour of a player is itself a player. */
  lemma NeighbourIsPlayer(v: Variant, st: State, selected: nat, neighbour: nat)
    requires !Retentive(v) && Core(v, st)
    requires selected in st.players && neighbour in st.g.nbrs[selected]
    ensures neighbour in st.players
  {
    assert selected in st.g.nbrs[neighbour];
  }

  /** A destructive merge between two players keeps the loop invariant. */
  lemma MergeKeepsCore(v: Variant, st: State, winner: nat, loser: nat, absorbed: Snapshot, next: State)
    requires !Retentive(v) && Core(v, st)
    requires winner in st.players && loser in st.players
    requires AbsorbPost(st.g, absorbed, winner, loser)
    requires v.ProbabilisticMinimumWeightNeighbour? && winner != loser ==> st.g.weight[winner] > 0
    requires next.g == absorbed.(weight := MergedWeights(v, st.g.weight, winner, loser))
    requires next.players == RemoveOne(st.players, loser)
    ensures |next.players| == |st.players| - 1
    ensures absorbed == next.g.(weight := st.g.weight)
    ensures Core(v, next)
    ensures NoSelfLoops(st.g) ==> NoSelfLoops(next.g)
    ensures PlayersUnclustered(st) ==> PlayersUnclustered(next)
  {
    assert absorbed.weight == st.g.weight;
    PlayersAfterRemoval(st.players, loser);
    MergedPlayersBounded(v, st, winner, loser, absorbed, next);
    MergedOthersIsolated(v, st, winner, loser, absorbed, next);
    forall x ensures multiset(next.players)[x] <= 1 {
      assert multiset(next.players)[x] <= multiset(st.players)[x];
    }
    if v.ProbabilisticMinimumWeightNeighbour? {
      MergedWeightless(v, st, winner, loser, absorbed, next);
    }
    if PlayersUnclustered(st) {
      MergedUnclustered(v, st, winner, loser, absorbed, next);
    }
  }

  lemma MergedPlayersBounded(v: Variant, st: State, winner: nat, loser: nat, absorbed: Snapshot, next: State)
    requires !Retentive(v) && Core(v, st)
    requires winner in st.players && loser in st.players
    requires AbsorbPost(st.g, absorbed, winner, loser)
    requires next.g == absorbed.(weight := MergedWeights(v, st.g.weight, winner, loser))
    requires next.players == RemoveOne(st.players, loser)
    ensures forall i :: 0 <= i < |next.players| ==> next.players[i] < |next.g.nbrs|
  {
    PlayersAfterRemoval(st.players, loser);
    forall i | 0 <= i < |next.players| ensures next.players[i] < |next.g.nbrs| {
      assert next.players[i] in st.players;
    }
  }

  lemma MergedOthersIsolated(v: Variant, st: State, winner: nat, loser: nat, absorbed: Snapshot, next: State)
    requires !Retentive(v) && Core(v, st)
    requires winner in st.players && loser in st.players
    requires AbsorbPost(st.g, absorbed, winner, loser)
    requires next.g == absorbed.(weight := MergedWeights(v, st.g.weight, winner, loser))
    requires next.players == RemoveOne(st.players, loser)
    ensures forall u :: 0 <= u < |next.g.nbrs| && u !in next.players ==> Degree(next.g, u) == 0
  {
    PlayersAfterRemoval(st.players, loser);
    forall u | 0 <= u < |next.g.nbrs| && u !in next.players ensures Degree(next.g, u) == 0 {
      if u != loser {
        assert u !in st.players;
      }
    }
  }

  lemma MergedWeightless(v: Variant, st: State, winner: nat, loser: nat, absorbed: Snapshot, next: State)
    requires !Retentive(v) && Core(v, st)
    requires winner in st.players && loser in st.players
    requires AbsorbPost(st.g, absorbed, winner, loser)
    requires next.g == absorbed.(weight := MergedWeights(v, st.g.weight, winner, loser))
    requires next.players == RemoveOne(st.players, loser)
    requires v.ProbabilisticMinimumWeightNeighbour? && winner != loser ==> st.g.weight[winner] > 0
    requires v.ProbabilisticMinimumWeightNeighbour?
    ensures WellFormed(next.g)
    ensures forall u :: u in next.players ==> u < |next.g.nbrs| && (next.g.weight[u] == 0 ==> Degree(next.g, u) == 0)
  {
    PlayersAfterRemoval(st.players, loser);
    forall u | u in next.players ensures u < |next.g.nbrs| && (next.g.weight[u] == 0 ==> Degree(next.g, u) == 0) {
      assert u in st.players;
    }
  }

  lemma MergedUnclustered(v: Variant, st: State, winner: nat, loser: nat, absorbed: Snapshot, next: State)
    requires !Retentive(v) && Core(v, st)
    requires winner in st.players && loser in st.players
    requires AbsorbPost(st.g, absorbed, winner, loser)
    requires next.g == absorbed.(weight := MergedWeights(v, st.g.weight, winner, loser))
    requires next.players == RemoveOne(st.players, loser)
    requires PlayersUnclustered(st)
    ensures forall i :: 0 <= i < |next.players| ==> next.players[i] < |next.g.nbrs| && !next.g.clustered[next.players[i]]
  {
    PlayersAfterRemoval(st.players, loser);
    MergedPlayersBounded(v, st, winner, loser, absorbed, next);
    forall i | 0 <= i < |next.players| ensures next.players[i] < |next.g.nbrs| && !next.g.clustered[next.players[i]] {
      var p := next.players[i];
      assert p in st.players;
      assert p != loser by {
        assert multiset(st.players)[loser] <= 1;
        assert multiset(next.players)[p] > 0;
      }
      var j :| 0 <= j < |st.players| && st.players[j] == p;
    }
  }

  /** What `players.removeOne(x)` leaves: `x` is gone when it was there once,
      every other player stays, nothing new comes in. */
  lemma PlayersAfterRemoval(players: seq<nat>, x: nat)
    requires x in players
    ensures |RemoveOne(players, x)| == |players| - 1
    ensures forall y :: y in RemoveOne(players, x) ==> y in players
    ensures forall y :: y in players && y != x ==> y in RemoveOne(players, x)
  {
    var r := RemoveOne(players, x);
    assert |multiset(r)| == |multiset(players)| - 1;
    forall y | y in r ensures y in players {
      assert multiset(r)[y] > 0;
    }
    forall y | y in players && y != x ensures y in r {
      assert multiset(r)[y] == multiset(players)[y] > 0;
    }
  }

  /** Taking one player out of the loop without merging (declared a winner,
      or dropped by III.d) keeps the loop invariant, provided that player has
      no edges in a destructive variant. */
  lemma RemovalKeepsCore(v: Variant, st: State, x: nat, next: State)
    requires Core(v, st) && x in st.players
    requires !Retentive(v) ==> Degree(st.g, x) == 0
    requires next.players == RemoveOne(st.players, x)
    requires next.g.nbrs == st.g.nbrs && next.g.weight == st.g.weight
    requires |next.g.clustered| == |st.g.clustered|
    requires forall u :: 0 <= u < |st.g.nbrs| && u != x ==> next.g.clustered[u] == st.g.clustered[u]
    ensures |next.players| == |st.players| - 1
    ensures Core(v, next)
    ensures PlayersUnclustered(st) ==> PlayersUnclustered(next)
  {
    PlayersAfterRemoval(st.players, x);
    forall i | 0 <= i < |next.players| ensures next.players[i] < |next.g.nbrs| {
      assert next.players[i] in st.players;
    }
    forall y ensures multiset(next.players)[y] <= 1 {
      assert multiset(next.players)[y] <= multiset(st.players)[y];
    }
    if !Retentive(v) {
      forall u | 0 <= u < |next.g.nbrs| && u !in next.players ensures Degree(next.g, u) == 0 {
        if u != x {
          assert u !in st.players;
        }
      }
    }
    if v.ProbabilisticMinimumWeightNeighbour? {
      forall u | u in next.players && next.g.weight[u] == 0 ensures Degree(next.g, u) == 0 {
        assert u in st.players;
      }
    }
    assert WellFormed(next.g) && Symmetric(next.g);
    if PlayersUnclustered(st) {
      forall i | 0 <= i < |next.players| ensures !next.g.clustered[next.players[i]] {
        var p := next.players[i];
        assert p in st.players;
        var j :| 0 <= j < |st.players| && st.players[j] == p;
      }
    }
  }

  /** When the weighted list of II.e or II.f is empty, the fallback candidate has no edges. */
  lemma FallbackIsolated(v: Variant, st: State, selected: nat)
    requires Core(v, st) && selected in st.players
    requires Candidates(v).Weighted? && Repeated(st.players, Metrics(Candidates(v).m, st.g)) == []
    ensures Degree(st.g, selected) == 0
  {
    RepeatedMember(st.players, Metrics(Candidates(v).m, st.g), selected);
  }

  /** Why the loop returned early, in terms of the state it found. */
  ghost predicate FailureCause(v: Variant, st: State, c: nat, f: Failure)
    requires Core(v, st) && c in st.players
  {
    match f
    case CandidateClustered => v.Uniform? && st.g.clustered[c]
    case SelfNeighbour => v.HighestTriangulatedVertex? && c in st.g.nbrs[c]
    case NullEdge => Retentive(v) && !v.RetainTriangulationTimesWeight? && Degree(st.g, c) == 0
  }

  /** What the candidate policy promises about a merging candidate: in II.g
      and II.h its metric is maximal among the players, in II.e and II.f it
      is positive. */
  ghost predicate CandidateFacts(v: Variant, st: State, c: nat)
    requires Core(v, st) && c in st.players
  {
    match Candidates(v)
    case UniformPick => true
    case MaxTie(m) =>
      forall i :: 0 <= i < |st.players| ==> MetricOf(m, st.g, st.players[i]) <= MetricOf(m, st.g, c)
    case Weighted(m) => MetricOf(m, st.g, c) > 0
  }

  /** The effect of one iteration, event by event:
      - a fatal guard returns with nothing changed;
      - a declared winner has no edges, joins `winners` and leaves `players`;
      - a merge records one pair in the variant's orientation, the winner
        being decided by the variant's comparator, and removes the loser from
        `players`; a destructive merge absorbs, a retentive one keeps the graph;
      - III.d drops a candidate whose edge helper returned null, setting its parent. */
  ghost predicate StepSpec(v: Variant, st: State, next: State, ev: Event)
    requires Core(v, st)
  {
    match ev
    case Fatal(c, f) => next == st && c in st.players && FailureCause(v, st, c, f)
    case Declared(c) =>
      && c in st.players && !Retentive(v) && Degree(st.g, c) == 0
      && next == st.(players := RemoveOne(st.players, c), winners := st.winners + [c])
    case Merged(c, nb, w, l) =>
      && c in st.players && nb in st.g.nbrs[c]
      && CandidateFacts(v, st, c)
      && (w, l) == Decide(Decider(v), st.g, c, nb)
      && l in st.players
      && next.players == RemoveOne(st.players, l)
      && next.winners == st.winners
      && next.hierarchy == st.hierarchy + [Record(Recording(v), c, nb, w, l)]
      && (Retentive(v) ==> next.g == st.g)
      && (!Retentive(v) ==>
            && AbsorbPost(st.g, next.g.(weight := st.g.weight), w, l)
            && next.g.weight == MergedWeights(v, st.g.weight, w, l))
    case Dropped(c) =>
      && v.RetainTriangulationTimesWeight? && c in st.players
      && next == st.(g := st.g.(clustered := st.g.clustered[c := true]), players := RemoveOne(st.players, c))
  }

  /** The rest of an iteration of a retentive variant, once the candidate
      is drawn: `winner = neighbour, loser = selected`, the edge kept. */
  method RetentiveStep(v: Variant, st: State, selected: nat) returns (next: State, ev: Event)
    requires Retentive(v) && Core(v, st) && selected in st.players
    requires !(v.Uniform? && st.g.clustered[selected])
    ensures StepSpec(v, st, next, ev) && ev.candidate == selected
    ensures !ev.Fatal? ==> Core(v, next) && |next.players| == |st.players| - 1
    ensures next.g.nbrs == st.g.nbrs
    ensures PlayersUnclustered(st) && !ev.Fatal? ==> PlayersUnclustered(next)
  {
    var isNull := Degree(st.g, selected) == 0;
    if v.RetainTriangulationTimesWeight? && !isNull {
      isNull :| true;
    }
    if isNull && !v.RetainTriangulationTimesWeight? {
      return st, Fatal(selected, NullEdge);
    }
    if isNull {
      next := st.(g := st.g.(clustered := st.g.clustered[selected := true]),
                  players := RemoveOne(st.players, selected));
      ev := Dropped(selected);
      RemovalKeepsCore(v, st, selected, next);
      return;
    }
    var j :| 0 <= j < Degree(st.g, selected);
    var neighbour := st.g.nbrs[selected][j];
    assert neighbour in st.g.nbrs[selected];
    var (winner, loser) := Decide(Decider(v), st.g, selected, neighbour);
    next := st.(players := RemoveOne(st.players, loser),
                hierarchy := st.hierarchy + [Record(Recording(v), selected, neighbour, winner, loser)]);
    ev := Merged(selected, neighbour, winner, loser);
    RemovalKeepsCore(v, st, selected, next);
  }

  /** The rest of an iteration of a destructive variant, once the candidate is drawn. */
  method DestructiveStep(v: Variant, st: State, selected: nat) returns (next: State, ev: Event)
    requires !Retentive(v) && Core(v, st) && selected in st.players
    requires !(v.Uniform? && st.g.clustered[selected])
    requires Degree(st.g, selected) > 0 ==> CandidateFacts(v, st, selected)
    ensures StepSpec(v, st, next, ev) && ev.candidate == selected
    ensures !ev.Fatal? ==> Core(v, next) && |next.players| == |st.players| - 1
    ensures NoSelfLoops(st.g) ==> NoSelfLoops(next.g) && !(ev.Fatal? && ev.failure.SelfNeighbour?)
    ensures PlayersUnclustered(st) && !ev.Fatal? ==> PlayersUnclustered(next)
  {
    if Degree(st.g, selected) == 0 {
      next := st.(players := RemoveOne(st.players, selected), winners := st.winners + [selected]);
      ev := Declared(selected);
      RemovalKeepsCore(v, st, selected, next);
    } else {
      var j :| 0 <= j < Degree(st.g, selected);
      var neighbour := st.g.nbrs[selected][j];
      if v.HighestTriangulatedVertex? && neighbour == selected {
        return st, Fatal(selected, SelfNeighbour);
      }
      next, ev := DestructiveMerge(v, st, selected, neighbour);
    }
  }

  /** One iteration of the variant's loop (for example graph.cpp:62-93):
      exactly one of the events of `StepSpec` happens, and unless the loop
      returns early `players` loses exactly one element and the invariant
      holds again. */
  method Step(v: Variant, st: State) returns (next: State, ev: Event)
    requires Core(v, st) && st.players != []
    ensures StepSpec(v, st, next, ev)
    ensures !ev.Fatal? ==> Core(v, next) && |next.players| == |st.players| - 1
    ensures Retentive(v) ==> next.g.nbrs == st.g.nbrs
    ensures NoSelfLoops(st.g) ==> NoSelfLoops(next.g) && !(ev.Fatal? && ev.failure.SelfNeighbour?)
    ensures PlayersUnclustered(st) ==> !(ev.Fatal? && ev.failure.CandidateClustered?)
    ensures PlayersUnclustered(st) && !ev.Fatal? ==> PlayersUnclustered(next)
  {
    var selected, fallback := PickCandidate(v, st);
    if fallback {
      FallbackIsolated(v, st, selected);
      next := st.(players := RemoveOne(st.players, selected), winners := st.winners + [selected]);
      ev := Declared(selected);
      RemovalKeepsCore(v, st, selected, next);
    } else if v.Uniform? && st.g.clustered[selected] {
      next, ev := st, Fatal(selected, CandidateClustered);
    } else if Retentive(v) {
      next, ev := RetentiveStep(v, st, selected);
    } else {
      next, ev := DestructiveStep(v, st, selected);
    }
  }

  /** How the loop ended: `players` ran empty, or a guard returned early. */
  datatype Outcome = Finished | Aborted(failure: Failure)

  /** The weight set for vertex `u` before the loop, by the variant's initialisation. */
  function InitialWeight(v: Variant, g: Snapshot, u: nat): nat
    requires WellFormed(g) && u < |g.nbrs|
  {
    match Initialisation(v)
    case KeepWeights => g.weight[u]
    case DegreeWeights => Degree(g, u)
    case UnitWeights => 1
  }

  /** The loop over `myVertexList` before the aggregation starts
      (graph.cpp:179-183, 956-960): `setWeight(getNumberEdge())` or `setWeight(1)`. */
  method InitialiseWeights(v: Variant, g: Snapshot) returns (r: Snapshot)
    requires WellFormed(g)
    ensures r.nbrs == g.nbrs && r.clustered == g.clustered && |r.weight| == |g.weight|
    ensures forall u :: 0 <= u < |g.nbrs| ==> r.weight[u] == InitialWeight(v, g, u)
  {
    if Initialisation(v).KeepWeights? {
      return g;
    }
    var w := g.weight;
    var i := 0;
    while i < |g.nbrs|
      invariant 0 <= i <= |g.nbrs| && |w| == |g.weight|
      invariant forall u :: 0 <= u < i ==> w[u] == InitialWeight(v, g, u)
    {
      w := w[i := InitialWeight(v, g, i)];
      i := i + 1;
    }
    r := g.(weight := w);
  }

  /** The hierarchy a run starts from: III.a-e clear it, the others append to it. */
  function StartHierarchy(v: Variant, hierarchy0: seq<Pair>): seq<Pair>
  {
    if ClearsHierarchy(v) then [] else hierarchy0
  }

  /** No vertex is marked as clustered (no parent set, nothing absorbed). */
  predicate NoneClustered(g: Snapshot)
    requires WellFormed(g)
  {
    forall u :: 0 <= u < |g.nbrs| ==> !g.clustered[u]
  }

  /** Every vertex has at least one edge. */
  predicate NoIsolated(g: Snapshot)
    requires WellFormed(g)
  {
    forall u :: 0 <= u < |g.nbrs| ==> Degree(g, u) > 0
  }

  /** What the driver keeps across iterations, `steps` iterations after the
      start from `g0` with hierarchy `base`. */
  ghost predicate RunInv(v: Variant, g0: Snapshot, base: seq<Pair>, st: State, t: nat, steps: nat)
    requires WellFormed(g0)
  {
    var n := |g0.nbrs|;
    && Core(v, st) && |st.g.nbrs| == n
    && |st.players| + steps == n && t <= steps
    && |base| <= |st.hierarchy| && st.hierarchy[..|base|] == base
    && t == |st.winners| + |st.hierarchy| - |base|
    && (!v.RetainTriangulationTimesWeight? ==> t == steps)
    && (forall i :: |base| <= i < |st.hierarchy| ==> st.hierarchy[i].first < n && st.hierarchy[i].second < n)
    && (forall i :: 0 <= i < |st.winners| ==> st.winners[i] < n)
    && (Retentive(v) ==> st.g.nbrs == g0.nbrs && st.winners == [])
    && (NoneClustered(g0) ==> PlayersUnclustered(st))
    && (NoSelfLoops(g0) ==> NoSelfLoops(st.g))
  }

  /** One non-fatal iteration keeps the driver's invariant. */
  lemma AdvanceKeepsRunInv(v: Variant, g0: Snapshot, base: seq<Pair>, st: State, t: nat, steps: nat,
                           next: State, ev: Event)
    requires WellFormed(g0) && RunInv(v, g0, base, st, t, steps)
    requires StepSpec(v, st, next, ev) && !ev.Fatal?
    requires Core(v, next) && |next.players| == |st.players| - 1
    requires Retentive(v) ==> next.g.nbrs == st.g.nbrs
    requires NoSelfLoops(st.g) ==> NoSelfLoops(next.g)
    requires PlayersUnclustered(st) ==> PlayersUnclustered(next)
    ensures RunInv(v, g0, base, next, if ev.Dropped? then t else t + 1, steps + 1)
  {
    match ev
    case Declared(c) => DeclaredKeepsRunInv(v, g0, base, st, t, steps, next, c);
    case Dropped(c) => DroppedKeepsRunInv(v, g0, base, st, t, steps, next, c);
    case Merged(c, nb, w, l) => MergedKeepsRunInv(v, g0, base, st, t, steps, next, c, nb, w, l);
  }

  lemma DeclaredKeepsRunInv(v: Variant, g0: Snapshot, base: seq<Pair>, st: State, t: nat, steps: nat,
                            next: State, c: nat)
    requires WellFormed(g0) && RunInv(v, g0, base, st, t, steps)
    requires Core(v, next) && |next.players| == |st.players| - 1
    requires NoSelfLoops(st.g) ==> NoSelfLoops(next.g)
    requires PlayersUnclustered(st) ==> PlayersUnclustered(next)
    requires StepSpec(v, st, next, Declared(c))
    ensures RunInv(v, g0, base, next, t + 1, steps + 1)
  {
    assert next.hierarchy == st.hierarchy;
    assert c in st.players;
  }

  lemma DroppedKeepsRunInv(v: Variant, g0: Snapshot, base: seq<Pair>, st: State, t: nat, steps: nat,
                           next: State, c: nat)
    requires WellFormed(g0) && RunInv(v, g0, base, st, t, steps)
    requires Core(v, next) && |next.players| == |st.players| - 1
    requires NoSelfLoops(st.g) ==> NoSelfLoops(next.g)
    requires PlayersUnclustered(st) ==> PlayersUnclustered(next)
    requires StepSpec(v, st, next, Dropped(c))
    ensures RunInv(v, g0, base, next, t, steps + 1)
  {
  }

  lemma MergedKeepsRunInv(v: Variant, g0: Snapshot, base: seq<Pair>, st: State, t: nat, steps: nat,
                          next: State, c: nat, nb: nat, w: nat, l: nat)
    requires WellFormed(g0) && RunInv(v, g0, base, st, t, steps)
    requires Core(v, next) && |next.players| == |st.players| - 1
    requires NoSelfLoops(st.g) ==> NoSelfLoops(next.g)
    requires PlayersUnclustered(st) ==> PlayersUnclustered(next)
    requires StepSpec(v, st, next, Merged(c, nb, w, l))
    requires Retentive(v) ==> next.g.nbrs == st.g.nbrs
    ensures RunInv(v, g0, base, next, t + 1, steps + 1)
  {
    var n := |g0.nbrs|;
    assert next.hierarchy[..|base|] == st.hierarchy[..|base|];
    assert c < n && nb < n;
  }

  /** A whole `random_aggregate_*` method: weights initialised, `players`
      set to every vertex, then one `Step` per iteration until `players` is
      empty or a guard returns early.  `t` is the source's counter, which
      counts declared winners and merges but not the vertices III.d drops. */
  method Run(v: Variant, g0: Snapshot, hierarchy0: seq<Pair>)
      returns (outcome: Outcome, g: Snapshot, winners: seq<nat>, hierarchy: seq<Pair>, t: nat)
    requires WellFormed(g0) && Symmetric(g0)
    ensures |g.nbrs| == |g0.nbrs| && t <= |g0.nbrs|
    ensures var base := StartHierarchy(v, hierarchy0);
      && |base| <= |hierarchy| && hierarchy[..|base|] == base
      && t == |winners| + |hierarchy| - |base|
      && forall i :: |base| <= i < |hierarchy| ==> hierarchy[i].first < |g0.nbrs| && hierarchy[i].second < |g0.nbrs|
    ensures outcome.Finished? && !v.RetainTriangulationTimesWeight? ==> t == |g0.nbrs|
    ensures forall i :: 0 <= i < |winners| ==> winners[i] < |g0.nbrs|
    ensures Retentive(v) ==> g.nbrs == g0.nbrs && winners == []
    ensures outcome.Finished? && !Retentive(v) ==> forall u :: 0 <= u < |g.nbrs| ==> Degree(g, u) == 0
    ensures NoneClustered(g0) ==> outcome != Aborted(CandidateClustered)
    ensures NoSelfLoops(g0) ==> outcome != Aborted(SelfNeighbour) && NoSelfLoops(g)
    ensures NoIsolated(g0) ==> outcome != Aborted(NullEdge)
  {
    var n := |g0.nbrs|;
    var init := InitialiseWeights(v, g0);
    var base := StartHierarchy(v, hierarchy0);
    var st := State(init, Range(n), [], base);
    ghost var steps := 0;
    StartKeepsCore(v, g0, init);
    outcome, t := Finished, 0;
    while st.players != []
      invariant RunInv(v, g0, base, st, t, steps)
      decreases |st.players|
    {
      var next, ev := Step(v, st);
      if ev.Fatal? {
        NotFatal(v, g0, next, ev);
        outcome := Aborted(ev.failure);
        break;
      }
      AdvanceKeepsRunInv(v, g0, base, st, t, steps, next, ev);
      if !ev.Dropped? {
        t := t + 1;
      }
      st, steps := next, steps + 1;
    }
    g, winners, hierarchy := st.g, st.winners, st.hierarchy;
  }

  /** Before the first iteration every vertex is a player, so the loop invariant holds. */
  lemma StartKeepsCore(v: Variant, g0: Snapshot, init: Snapshot)
    requires WellFormed(g0) && Symmetric(g0)
    requires init.nbrs == g0.nbrs && init.clustered == g0.clustered && |init.weight| == |g0.weight|
    requires forall u :: 0 <= u < |g0.nbrs| ==> init.weight[u] == InitialWeight(v, g0, u)
    ensures forall b :: RunInv(v, g0, b, State(init, Range(|g0.nbrs|), [], b), 0, 0)
  {
    var n := |g0.nbrs|;
    var players := Range(n);
    forall x ensures multiset(players)[x] <= 1 {
      if x >= 0 { RangeMultiset(n, x); }
    }
    forall u | 0 <= u < n ensures u in players {
      assert players[u] == u;
    }
  }

  /** The early returns can only fire where their guard's condition is met. */
  lemma NotFatal(v: Variant, g0: Snapshot, st: State, ev: Event)
    requires WellFormed(g0) && Core(v, st) && ev.Fatal? && StepSpec(v, st, st, ev)
    requires |g0.nbrs| == |st.g.nbrs|
    requires Retentive(v) ==> st.g.nbrs == g0.nbrs
    requires NoneClustered(g0) ==> PlayersUnclustered(st)
    requires NoSelfLoops(g0) ==> NoSelfLoops(st.g)
    ensures NoneClustered(g0) ==> ev.failure != CandidateClustered
    ensures NoSelfLoops(g0) ==> ev.failure != SelfNeighbour
    ensures NoIsolated(g0) ==> ev.failure != NullEdge
  {
    var c := ev.candidate;
    var i :| 0 <= i < |st.players| && st.players[i] == c;
    if Retentive(v) {
      assert Degree(st.g, c) == Degree(g0, c);
    }
  }
}
