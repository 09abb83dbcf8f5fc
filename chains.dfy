/**
 * A single isnad: the chain of narrators through whom one hadith was
 * transmitted, given as narrator-to-narrator edges, with its node list derived
 * at construction (the `Isnad` class of utils.py).
 */
module Chains {
  import opened Outcomes
  import opened Sequences

  /** A transmission link between two narrator ids. */
  datatype Edge = Edge(u: int, v: int)

  /**
   * An isnad: its own id `sid`, the id `hid` of the hadith it carries, its
   * edges, and the node list derived from the edges.
   */
  datatype Isnad = Isnad(sid: int, hid: int, edges: seq<Edge>, nodes: seq<int>)

  /** The endpoints of the edges in traversal order: u, then v, edge by edge. */
  function Endpoints(es: seq<Edge>): seq<int> {
    if es == [] then [] else Endpoints(es[..|es| - 1]) + [es[|es| - 1].u, es[|es| - 1].v]
  }

  /** The node list: each endpoint once, in the order it is first met. */
  function NodesOf(es: seq<Edge>): seq<int> {
    Dedup(Endpoints(es))
  }

  /** What the constructor guarantees of every isnad it builds. */
  predicate WellFormed(c: Isnad) {
    |c.edges| > 0 && c.nodes == NodesOf(c.edges)
  }

  lemma EndpointsAppend(es: seq<Edge>, e: Edge)
    ensures Endpoints(es + [e]) == Endpoints(es) + [e.u, e.v]
  {
    assert (es + [e])[..|es|] == es;
  }

  /** Endpoints lists u of edge i at position 2i and v at position 2i+1. */
  lemma {:induction false} EndpointsAt(es: seq<Edge>)
    ensures |Endpoints(es)| == 2 * |es|
    ensures forall i :: 0 <= i < |es| ==>
              Endpoints(es)[2 * i] == es[i].u && Endpoints(es)[2 * i + 1] == es[i].v
  {
    if es != [] {
      var p := es[..|es| - 1];
      assert es == p + [es[|es| - 1]];
      EndpointsAt(p);
      EndpointsAppend(p, es[|es| - 1]);
    }
  }

  lemma EndpointsMember(es: seq<Edge>, x: int)
    ensures x in Endpoints(es) <==> exists i :: 0 <= i < |es| && (es[i].u == x || es[i].v == x)
  {
    EndpointsAt(es);
    if x in Endpoints(es) {
      var k :| 0 <= k < |Endpoints(es)| && Endpoints(es)[k] == x;
      var i := k / 2;
      assert k == 2 * i || k == 2 * i + 1;
    }
  }

  /** One iteration of the constructor's loop over the edges. */
  lemma NodesOfAppend(es: seq<Edge>, e: Edge)
    ensures NodesOf(es + [e]) == AddNew(AddNew(NodesOf(es), e.u), e.v)
  {
    EndpointsAppend(es, e);
    assert Endpoints(es) + [e.u, e.v] == (Endpoints(es) + [e.u]) + [e.v];
    DedupAppend(Endpoints(es) + [e.u], e.v);
    DedupAppend(Endpoints(es), e.u);
  }

  /**
   * The node list holds no duplicates, holds exactly the endpoints of the
   * edges, and lists them in the order of first appearance when the edges are
   * walked left to right, u before v within each edge.
   */
  lemma NodesOfSpec(es: seq<Edge>)
    ensures NoDup(NodesOf(es))
    ensures forall x :: x in NodesOf(es) <==> x in Endpoints(es)
    ensures forall x :: x in NodesOf(es) <==>
              exists i :: 0 <= i < |es| && (es[i].u == x || es[i].v == x)
    ensures forall i, j :: 0 <= i < j < |NodesOf(es)| ==>
              FirstIndex(Endpoints(es), NodesOf(es)[i]) < FirstIndex(Endpoints(es), NodesOf(es)[j])
  {
    DedupSpec(Endpoints(es));
    forall x ensures x in NodesOf(es) <==>
              exists i :: 0 <= i < |es| && (es[i].u == x || es[i].v == x)
    {
      EndpointsMember(es, x);
    }
  }

  /**
   * `Isnad.__init__`: fails on an empty edge list; otherwise keeps the ids
   * and edges and walks the edges once, appending each endpoint not yet seen.
   */
  method MakeIsnad(sid: int, hid: int, edges: seq<Edge>) returns (r: Result<Isnad>)
    ensures r.Failure? <==> edges == []
    ensures r.Failure? ==> r.error == EmptyChain
    ensures r.Success? ==> r.value == Isnad(sid, hid, edges, NodesOf(edges))
    ensures r.Success? ==> WellFormed(r.value)
  {
    if |edges| == 0 {
      return Failure(EmptyChain);
    }
    var el: seq<int> := [];
    var i := 0;
    while i < |edges|
      invariant 0 <= i <= |edges|
      invariant el == NodesOf(edges[..i])
    {
      var e := edges[i];
      if e.u !in el {
        el := el + [e.u];
      }
      if e.v !in el {
        el := el + [e.v];
      }
      assert edges[..i + 1] == edges[..i] + [e];
      NodesOfAppend(edges[..i], e);
      i := i + 1;
    }
    assert edges[..i] == edges;
    return Success(Isnad(sid, hid, edges, el));
  }
}
