/** Edge registration (edge.cpp): an edge object keeps pointers to its two
    endpoint vertices and its index; constructing it registers it with both
    endpoints, and `removeAll` (and the destructor, whose body is the same
    four statements) detaches it again.  A vertex holds the two lists that
    registration keeps in step: its incident edges and its neighbours'
    indices. */
module EdgeStore {
  import opened Lists

  class Vertex {
    /** The vertex's index; the model fixes it at construction (re-indexing is file loading). */
    const index: nat
    /** `myEdge`: the incident edges, a self-loop appearing twice. */
    var edges: seq<Edge>
    /** The neighbour-index list filled by `addAdj`. */
    var adj: seq<nat>

    constructor (index: nat)
      ensures this.index == index && edges == [] && adj == []
    {
      this.index := index;
      edges := [];
      adj := [];
    }

    /** `addEdge`: appends the edge. */
    method AddEdge(e: Edge)
      modifies this`edges
      ensures edges == old(edges) + [e] && adj == old(adj)
    {
      edges := edges + [e];
    }

    /** `removeEdge`: removes the first occurrence of the edge (QList::removeOne). */
    method RemoveEdge(e: Edge)
      modifies this`edges
      ensures edges == RemoveOne(old(edges), e) && adj == old(adj)
    {
      edges := RemoveOne(edges, e);
    }

    /** `addAdj`: appends a neighbour index. */
    method AddAdj(i: nat)
      modifies this`adj
      ensures adj == old(adj) + [i] && edges == old(edges)
    {
      adj := adj + [i];
    }

    /** `removeAdj`: removes the first occurrence of a neighbour index. */
    method RemoveAdj(i: nat)
      modifies this`adj
      ensures adj == RemoveOne(old(adj), i) && edges == old(edges)
    {
      adj := RemoveOne(adj, i);
    }
  }

  class Edge {
    const from: Vertex
    const to: Vertex
    const index: nat

    function FromVertex(): Vertex { from }
    function ToVertex(): Vertex { to }
    function GetIndex(): nat { index }

    /** `Edge::Edge`: records both endpoints and the index, appends the edge
        to both endpoints' edge lists and each endpoint's index to the other's
        neighbour list.  For a self-loop both appends land on the same vertex. */
    constructor (fromVertex: Vertex, toVertex: Vertex, index: nat)
      modifies fromVertex, toVertex
      ensures FromVertex() == fromVertex && ToVertex() == toVertex && GetIndex() == index
      ensures fromVertex != toVertex ==>
        && fromVertex.edges == old(fromVertex.edges) + [this]
        && toVertex.edges == old(toVertex.edges) + [this]
        && fromVertex.adj == old(fromVertex.adj) + [toVertex.index]
        && toVertex.adj == old(toVertex.adj) + [fromVertex.index]
      ensures fromVertex == toVertex ==>
        && fromVertex.edges == old(fromVertex.edges) + [this, this]
        && fromVertex.adj == old(fromVertex.adj) + [fromVertex.index, fromVertex.index]
      ensures old(Consistent(fromVertex)) ==> Consistent(fromVertex)
      ensures old(Consistent(toVertex)) ==> Consistent(toVertex)
    {
      from := fromVertex;
      to := toVertex;
      this.index := index;
      new;
      ghost var f0, t0, fa, ta := fromVertex.edges, toVertex.edges, fromVertex.adj, toVertex.adj;
      fromVertex.AddEdge(this);
      toVertex.AddEdge(this);
      fromVertex.AddAdj(toVertex.index);
      toVertex.AddAdj(fromVertex.index);
      if fromVertex != toVertex {
        if InStep(fromVertex, f0, fa) {
          InStepAppend(fromVertex, f0, fa, this);
        }
        if InStep(toVertex, t0, ta) {
          InStepAppend(toVertex, t0, ta, this);
        }
      } else if InStep(fromVertex, f0, fa) {
        var i := fromVertex.index;
        InStepAppend(fromVertex, f0, fa, this);
        InStepAppend(fromVertex, f0 + [this], fa + [i], this);
        assert f0 + [this] + [this] == f0 + [this, this];
        assert fa + [i] + [i] == fa + [i, i];
      }
    }

    /** `Edge::removeAll` (and `Edge::~Edge`): removes the edge from both
        endpoints' edge lists and each endpoint's index from the other's
        neighbour list; the edge's own fields are constants.  When the edge is
        still registered, each endpoint's two lists stay in step. */
    method RemoveAll()
      modifies from, to
      ensures from != to ==>
        && from.edges == RemoveOne(old(from.edges), this)
        && to.edges == RemoveOne(old(to.edges), this)
        && from.adj == RemoveOne(old(from.adj), to.index)
        && to.adj == RemoveOne(old(to.adj), from.index)
      ensures from == to ==>
        && from.edges == RemoveOne(RemoveOne(old(from.edges), this), this)
        && from.adj == RemoveOne(RemoveOne(old(from.adj), from.index), from.index)
      ensures (from != to && this in old(from.edges) && this in old(to.edges)
               && old(Consistent(from)) && old(Consistent(to))) ==> Consistent(from) && Consistent(to)
      ensures (from == to && Occurrences(old(from.edges), this) >= 2 && old(Consistent(from))) ==> Consistent(from)
    {
      ghost var f0, t0, fa, ta := from.edges, to.edges, from.adj, to.adj;
      from.RemoveEdge(this);
      to.RemoveEdge(this);
      from.RemoveAdj(to.index);
      to.RemoveAdj(from.index);
      if from != to {
        if this in f0 && this in t0 && InStep(from, f0, fa) && InStep(to, t0, ta) {
          InStepRemove(from, f0, fa, this);
          InStepRemove(to, t0, ta, this);
        }
      } else if Occurrences(f0, this) >= 2 && InStep(from, f0, fa) {
        InStepRemove(from, f0, fa, this);
        assert this in RemoveOne(f0, this) by {
          assert Occurrences(RemoveOne(f0, this), this) >= 1;
        }
        InStepRemove(from, RemoveOne(f0, this), RemoveOne(fa, from.index), this);
      }
    }
  }

  /** How many times `e` is listed in `es`. */
  function Occurrences(es: seq<Edge>, e: Edge): nat
  {
    multiset(es)[e]
  }

  /** The vertex at the other end of `e` seen from `v` (`get_neighbour_fromEdge`),
      given by its index; a self-loop leads back to `v`. */
  function OtherEnd(e: Edge, v: Vertex): nat
  {
    if e.from == v then e.to.index else e.from.index
  }

  /** The neighbour indices that the edges `es` of `v` stand for, in order. */
  function NeighbourIndexes(v: Vertex, es: seq<Edge>): seq<nat>
  {
    if es == [] then [] else [OtherEnd(es[0], v)] + NeighbourIndexes(v, es[1..])
  }

  /** The dual-list invariant of a vertex: every listed edge is incident to
      it, and its neighbour-index list holds exactly the other ends of its
      edges, counted with multiplicity. */
  ghost predicate Consistent(v: Vertex)
    reads v
  {
    InStep(v, v.edges, v.adj)
  }

  /** The invariant on given lists of `v`. */
  ghost predicate InStep(v: Vertex, es: seq<Edge>, adj: seq<nat>)
  {
    && (forall e :: e in es ==> e.from == v || e.to == v)
    && multiset(adj) == multiset(NeighbourIndexes(v, es))
  }

  /** Registering an incident edge together with its other end keeps the lists in step. */
  lemma InStepAppend(v: Vertex, es: seq<Edge>, adj: seq<nat>, e: Edge)
    requires InStep(v, es, adj)
    requires e.from == v || e.to == v
    ensures InStep(v, es + [e], adj + [OtherEnd(e, v)])
  {
    NeighbourIndexesAppend(v, es, [e]);
  }

  /** Detaching a registered edge together with its other end keeps the lists in step. */
  lemma InStepRemove(v: Vertex, es: seq<Edge>, adj: seq<nat>, e: Edge)
    requires InStep(v, es, adj)
    requires e in es
    ensures InStep(v, RemoveOne(es, e), RemoveOne(adj, OtherEnd(e, v)))
  {
    NeighbourIndexesRemoveOne(v, es, e);
    forall x | x in RemoveOne(es, e) ensures x in es {
      assert multiset(RemoveOne(es, e))[x] > 0;
    }
  }

  lemma {:induction false} NeighbourIndexesAppend(v: Vertex, es: seq<Edge>, more: seq<Edge>)
    ensures NeighbourIndexes(v, es + more) == NeighbourIndexes(v, es) + NeighbourIndexes(v, more)
  {
    if es != [] {
      assert (es + more)[1..] == es[1..] + more;
      NeighbourIndexesAppend(v, es[1..], more);
    } else {
      assert es + more == more;
    }
  }

  lemma {:induction false} NeighbourIndexesMember(v: Vertex, es: seq<Edge>, e: Edge)
    requires e in es
    ensures OtherEnd(e, v) in NeighbourIndexes(v, es)
  {
    if es[0] != e {
      NeighbourIndexesMember(v, es[1..], e);
    }
  }

  /** Taking one occurrence of an edge out of the list takes its other end
      out of the neighbour indices. */
  lemma {:induction false} NeighbourIndexesRemoveOne(v: Vertex, es: seq<Edge>, e: Edge)
    requires e in es
    ensures multiset(NeighbourIndexes(v, RemoveOne(es, e)))
         == multiset(NeighbourIndexes(v, es)) - multiset{OtherEnd(e, v)}
  {
    var first := multiset{OtherEnd(es[0], v)};
    assert multiset(NeighbourIndexes(v, es)) == first + multiset(NeighbourIndexes(v, es[1..]));
    if es[0] != e {
      var r := RemoveOne(es, e);
      assert r == [es[0]] + RemoveOne(es[1..], e);
      assert r[0] == es[0] && r[1..] == RemoveOne(es[1..], e);
      assert multiset(NeighbourIndexes(v, r)) == first + multiset(NeighbourIndexes(v, RemoveOne(es[1..], e)));
      NeighbourIndexesRemoveOne(v, es[1..], e);
      NeighbourIndexesMember(v, es[1..], e);
      MultisetMinusFront(first, multiset(NeighbourIndexes(v, es[1..])), OtherEnd(e, v));
    } else {
      assert RemoveOne(es, e) == es[1..];
    }
  }

  /** Taking out a value the back part holds commutes with adding the front part. */
  lemma MultisetMinusFront(front: multiset<nat>, back: multiset<nat>, x: nat)
    requires x in back
    ensures front + back - multiset{x} == front + (back - multiset{x})
  {
  }

  /** Constructing an edge and then detaching it with `removeAll` gives both
      endpoints their edge lists back exactly and their neighbour lists back
      as multisets; the neighbour lists come back exactly when the endpoints
      were not already neighbours. */
  method ConstructThenRemoveAll(fromVertex: Vertex, toVertex: Vertex, index: nat) returns (e: Edge)
    modifies fromVertex, toVertex
    ensures e.FromVertex() == fromVertex && e.ToVertex() == toVertex && e.GetIndex() == index
    ensures fromVertex.edges == old(fromVertex.edges) && toVertex.edges == old(toVertex.edges)
    ensures multiset(fromVertex.adj) == multiset(old(fromVertex.adj))
    ensures multiset(toVertex.adj) == multiset(old(toVertex.adj))
    ensures fromVertex != toVertex && toVertex.index !in old(fromVertex.adj) ==> fromVertex.adj == old(fromVertex.adj)
    ensures fromVertex != toVertex && fromVertex.index !in old(toVertex.adj) ==> toVertex.adj == old(toVertex.adj)
    ensures fromVertex == toVertex && fromVertex.index !in old(fromVertex.adj) ==> fromVertex.adj == old(fromVertex.adj)
  {
    ghost var fe, te, fa, ta := fromVertex.edges, toVertex.edges, fromVertex.adj, toVertex.adj;
    e := new Edge(fromVertex, toVertex, index);
    assert e !in fe && e !in te by {
      assert fe == old(fromVertex.edges) && te == old(toVertex.edges);
    }
    assert e.from == fromVertex && e.to == toVertex;
    e.RemoveAll();
    if fromVertex != toVertex {
      assert fromVertex.edges == RemoveOne(fe + [e], e) && toVertex.edges == RemoveOne(te + [e], e);
      assert fromVertex.adj == RemoveOne(fa + [toVertex.index], toVertex.index);
      assert toVertex.adj == RemoveOne(ta + [fromVertex.index], fromVertex.index);
      RemoveOneAfterAppend(fe, e);
      RemoveOneAfterAppend(te, e);
      RestoreIndex(fa, toVertex.index);
      RestoreIndex(ta, fromVertex.index);
    } else {
      var i := fromVertex.index;
      assert fromVertex.edges == RemoveOne(RemoveOne(fe + [e, e], e), e);
      assert fromVertex.adj == RemoveOne(RemoveOne(fa + [i, i], i), i);
      SelfLoopRoundTrip(fe, e);
      SelfLoopRoundTrip(fa, i);
    }
  }

  /** Appending a value twice and removing it twice gives back the multiset,
      and the sequence itself when the value was absent before. */
  lemma SelfLoopRoundTrip<T>(s: seq<T>, x: T)
    ensures multiset(RemoveOne(RemoveOne(s + [x, x], x), x)) == multiset(s)
    ensures x !in s ==> RemoveOne(RemoveOne(s + [x, x], x), x) == s
  {
    var z := RemoveOne(s + [x], x);
    var y := z + [x];
    assert RemoveOne(s + [x, x], x) == y by {
      assert s + [x, x] == (s + [x]) + [x];
      RemoveOneAfterAppendPresent(s + [x], x);
    }
    RemoveOneAfterAppendMultiset(s, x);
    assert multiset(y) == multiset(z) + multiset{x};
    RemoveOneCancel(y, s, x);
    if x !in s {
      RemoveOneAfterAppend(s, x);
    }
  }

  /** Appending an index and removing one occurrence of it restores the list
      as a multiset, and exactly when the index was absent before. */
  lemma RestoreIndex(s: seq<nat>, i: nat)
    ensures multiset(RemoveOne(s + [i], i)) == multiset(s)
    ensures i !in s ==> RemoveOne(s + [i], i) == s
  {
    if i !in s {
      RemoveOneAfterAppend(s, i);
    }
  }
}
