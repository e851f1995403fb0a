/** The ingest router of `add_edge` and `add_vertex`: every submitted edge is
    sent to the hash owner of each endpoint, flagged so that the two copies
    can later be told apart; every vertex payload goes to its hash owner. */
module Routing {
  import opened Common

  /** The first-pass owner of a vertex: machine 0 when running alone,
      otherwise `hash_vertex(v) % numProcs`. */
  function Owner(v: VertexId, numProcs: nat, hashVertex: VertexId -> nat): (p: ProcId)
    requires numProcs > 0
    ensures p < numProcs
    ensures numProcs == 1 ==> p == 0
  {
    if numProcs == 1 then 0 else hashVertex(v) % numProcs
  }

  /** The records `add_edge` hands to the edge exchange, given the owners
      `os` of the source and `ot` of the target. */
  function RouteEdge<E>(s: VertexId, t: VertexId, d: E, os: ProcId, ot: ProcId): seq<Send<EdgeRecord<E>>>
  {
    if os == ot then [Send(os, EdgeRecord(s, t, d, Unflagged))]
    else [Send(os, EdgeRecord(s, t, d, SourceSide)), Send(ot, EdgeRecord(s, t, d, TargetSide))]
  }

  /** Every routed record carries the submitted edge, and the flag tells which
      owner it was sent to: an unflagged record goes to the common owner, a
      source-side one to the source's owner, a target-side one to the target's. */
  lemma RouteEdgeRecords<E>(s: VertexId, t: VertexId, d: E, os: ProcId, ot: ProcId)
    ensures forall m :: m in RouteEdge(s, t, d, os, ot) ==>
      && m.rec.source == s && m.rec.target == t && m.rec.data == d
      && (m.rec.flag == Unflagged ==> m.dest == os == ot)
      && (m.rec.flag == SourceSide ==> m.dest == os != ot)
      && (m.rec.flag == TargetSide ==> m.dest == ot != os)
  {
  }

  /** One unflagged record when both endpoints share an owner; otherwise
      exactly two, one per owner. Either way both owners receive a copy. */
  lemma RouteEdgeCopies<E>(s: VertexId, t: VertexId, d: E, os: ProcId, ot: ProcId)
    ensures |RouteEdge(s, t, d, os, ot)| == (if os == ot then 1 else 2)
    ensures os == ot ==> RouteEdge(s, t, d, os, ot) == [Send(os, EdgeRecord(s, t, d, Unflagged))]
    ensures exists i :: 0 <= i < |RouteEdge(s, t, d, os, ot)| && RouteEdge(s, t, d, os, ot)[i].dest == os
    ensures exists i :: 0 <= i < |RouteEdge(s, t, d, os, ot)| && RouteEdge(s, t, d, os, ot)[i].dest == ot
    ensures forall i, j :: 0 <= i < j < |RouteEdge(s, t, d, os, ot)| ==>
      RouteEdge(s, t, d, os, ot)[i].dest != RouteEdge(s, t, d, os, ot)[j].dest
  {
    var r := RouteEdge(s, t, d, os, ot);
    assert r[0].dest == os;
    if os != ot {
      assert r[1].dest == ot;
    }
  }

  /** On a single machine every edge record goes to machine 0, unflagged. */
  lemma StandaloneRouting<E>(s: VertexId, t: VertexId, d: E, hashVertex: VertexId -> nat)
    ensures RouteEdge(s, t, d, Owner(s, 1, hashVertex), Owner(t, 1, hashVertex))
         == [Send(0, EdgeRecord(s, t, d, Unflagged))]
  {
  }
}
