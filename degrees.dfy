/** The degree collector and the de-duplication filter of `finalize`.

    Every machine counts, over the edge records it received, one degree unit
    per endpoint per record. A flagged record's other endpoint is owned by a
    different machine, so the two hash owners swap the degrees they counted
    for their own endpoint; the received value overwrites the local count.
    The filter then keeps an unflagged record always, and of the two flagged
    copies exactly the one whose flag equals `(deg(source) >= deg(target)) + 1`.

    The cluster-level part of this module follows a stream of submitted edges
    through routing, counting and the exchange, and proves that every machine
    then holds the global degree of both endpoints of each record it received,
    so that every submitted edge passes the filter on exactly one machine. */
module Degrees {
  import opened Common
  import opened Routing

  /** An edge as submitted to `add_edge`, on whichever machine. */
  datatype Edge<E> = Edge(source: VertexId, target: VertexId, data: E)

  /** The records `add_edge` sends for one submitted edge. */
  function Route<E>(e: Edge<E>, n: nat, h: VertexId -> nat): seq<Send<EdgeRecord<E>>>
    requires n > 0
  {
    RouteEdge(e.source, e.target, e.data, Owner(e.source, n, h), Owner(e.target, n, h))
  }

  /** All records sent for a stream of submitted edges, in submission order. */
  function Routed<E>(edges: seq<Edge<E>>, n: nat, h: VertexId -> nat): seq<Send<EdgeRecord<E>>>
    requires n > 0
  {
    if edges == [] then [] else Routed(edges[..|edges| - 1], n, h) + Route(edges[|edges| - 1], n, h)
  }

  /** What machine `m` receives from a sequence of sends, in order. */
  function Inbox<T>(sends: seq<Send<T>>, m: ProcId): seq<T>
  {
    if sends == [] then []
    else Inbox(sends[..|sends| - 1], m) + (if sends[|sends| - 1].dest == m then [sends[|sends| - 1].rec] else [])
  }

  lemma {:induction false} InboxAppend<T>(a: seq<Send<T>>, b: seq<Send<T>>, m: ProcId)
    ensures Inbox(a + b, m) == Inbox(a, m) + Inbox(b, m)
  {
    if b == [] {
      assert a + b == a;
    } else {
      assert (a + b)[..|a + b| - 1] == a + b[..|b| - 1];
      InboxAppend(a, b[..|b| - 1], m);
    }
  }

  /** A machine receives exactly the records addressed to it. */
  lemma {:induction false} InboxMember<T>(sends: seq<Send<T>>, m: ProcId, r: T)
    ensures r in Inbox(sends, m) <==> Send(m, r) in sends
  {
    if sends != [] {
      var pre := sends[..|sends| - 1];
      InboxMember(pre, m, r);
      assert sends == pre + [sends[|sends| - 1]];
    }
  }

  /** A routed record belongs to the routing of one submitted edge, and
      every copy the router makes of a submitted edge is routed. */
  lemma RoutedMember<E>(edges: seq<Edge<E>>, n: nat, h: VertexId -> nat, s: Send<EdgeRecord<E>>)
    requires n > 0
    ensures s in Routed(edges, n, h) <==> exists i :: 0 <= i < |edges| && s in Route(edges[i], n, h)
  {
    if s in Routed(edges, n, h) {
      RoutedFromEdge(edges, n, h, s);
    }
    if exists i :: 0 <= i < |edges| && s in Route(edges[i], n, h) {
      var i :| 0 <= i < |edges| && s in Route(edges[i], n, h);
      EdgeIsRouted(edges, n, h, i, s);
    }
  }

  lemma {:induction false} RoutedFromEdge<E>(edges: seq<Edge<E>>, n: nat, h: VertexId -> nat, s: Send<EdgeRecord<E>>)
    requires n > 0
    requires s in Routed(edges, n, h)
    ensures exists i :: 0 <= i < |edges| && s in Route(edges[i], n, h)
  {
    var pre, last := edges[..|edges| - 1], edges[|edges| - 1];
    assert Routed(edges, n, h) == Routed(pre, n, h) + Route(last, n, h);
    if s in Route(last, n, h) {
      assert edges[|pre|] == last;
    } else {
      RoutedFromEdge(pre, n, h, s);
      var i :| 0 <= i < |pre| && s in Route(pre[i], n, h);
      assert edges[i] == pre[i];
    }
  }

  lemma {:induction false} EdgeIsRouted<E>(edges: seq<Edge<E>>, n: nat, h: VertexId -> nat, i: nat, s: Send<EdgeRecord<E>>)
    requires n > 0
    requires i < |edges| && s in Route(edges[i], n, h)
    ensures s in Routed(edges, n, h)
  {
    var pre, last := edges[..|edges| - 1], edges[|edges| - 1];
    assert Routed(edges, n, h) == Routed(pre, n, h) + Route(last, n, h);
    if i < |pre| {
      assert pre[i] == edges[i];
      EdgeIsRouted(pre, n, h, i, s);
    }
  }

  /** A record received by `m` is the copy of some submitted edge that the
      router addressed to `m`. */
  lemma ReceivedFromEdge<E>(edges: seq<Edge<E>>, n: nat, h: VertexId -> nat, m: ProcId, r: EdgeRecord<E>)
    requires n > 0
    requires r in Inbox(Routed(edges, n, h), m)
    ensures exists i :: 0 <= i < |edges| && Send(m, r) in Route(edges[i], n, h)
  {
    InboxMember(Routed(edges, n, h), m, r);
    RoutedMember(edges, n, h, Send(m, r));
  }

  /** Degree units one record contributes to `v`: one per matching endpoint,
      so a self-loop counts twice. */
  function Hits<E>(r: EdgeRecord<E>, v: VertexId): nat
  {
    (if r.target == v then 1 else 0) + (if r.source == v then 1 else 0)
  }

  /** The degree of `v` counted over a machine's received records. */
  function DegreeIn<E>(recs: seq<EdgeRecord<E>>, v: VertexId): nat
  {
    if recs == [] then 0 else DegreeIn(recs[..|recs| - 1], v) + Hits(recs[|recs| - 1], v)
  }

  lemma {:induction false} DegreeInAppend<E>(a: seq<EdgeRecord<E>>, b: seq<EdgeRecord<E>>, v: VertexId)
    ensures DegreeIn(a + b, v) == DegreeIn(a, v) + DegreeIn(b, v)
  {
    if b == [] {
      assert a + b == a;
    } else {
      assert (a + b)[..|a + b| - 1] == a + b[..|b| - 1];
      DegreeInAppend(a, b[..|b| - 1], v);
    }
  }

  /** The in+out degree of `v` in the submitted graph. */
  function EdgeDegree<E>(edges: seq<Edge<E>>, v: VertexId): nat
  {
    if edges == [] then 0
    else
      var e := edges[|edges| - 1];
      EdgeDegree(edges[..|edges| - 1], v) + (if e.target == v then 1 else 0) + (if e.source == v then 1 else 0)
  }

  /** The owner of `v` receives, for one submitted edge, as many degree units
      of `v` as the edge has endpoints equal to `v`. */
  lemma RouteDegree<E>(e: Edge<E>, n: nat, h: VertexId -> nat, v: VertexId)
    requires n > 0
    ensures DegreeIn(Inbox(Route(e, n, h), Owner(v, n, h)), v)
         == (if e.target == v then 1 else 0) + (if e.source == v then 1 else 0)
  {
    var m := Owner(v, n, h);
    var os, ot := Owner(e.source, n, h), Owner(e.target, n, h);
    if os == ot {
      var s0 := Send(os, EdgeRecord(e.source, e.target, e.data, Unflagged));
      assert Route(e, n, h) == [s0];
      SendDegree(s0, m, v);
    } else {
      var s0 := Send(os, EdgeRecord(e.source, e.target, e.data, SourceSide));
      var s1 := Send(ot, EdgeRecord(e.source, e.target, e.data, TargetSide));
      assert Route(e, n, h) == [s0, s1];
      SendsDegree(s0, s1, m, v);
    }
  }


  /** Degree units of `v` that `m` receives from one send. */
  lemma SendDegree<E>(s0: Send<EdgeRecord<E>>, m: ProcId, v: VertexId)
    ensures DegreeIn(Inbox([s0], m), v) == if s0.dest == m then Hits(s0.rec, v) else 0
  {
    InboxOne(s0, m);
    DegreeInOne(s0.rec, v);
  }

  /** Degree units of `v` that `m` receives from two sends. */
  lemma SendsDegree<E>(s0: Send<EdgeRecord<E>>, s1: Send<EdgeRecord<E>>, m: ProcId, v: VertexId)
    ensures DegreeIn(Inbox([s0, s1], m), v)
         == (if s0.dest == m then Hits(s0.rec, v) else 0) + (if s1.dest == m then Hits(s1.rec, v) else 0)
  {
    assert [s0, s1] == [s0] + [s1];
    InboxAppend([s0], [s1], m);
    DegreeInAppend(Inbox([s0], m), Inbox([s1], m), v);
    SendDegree(s0, m, v);
    SendDegree(s1, m, v);
  }



  lemma InboxOne<T>(s: Send<T>, m: ProcId)
    ensures Inbox([s], m) == if s.dest == m then [s.rec] else []
  {
    assert [s][..0] == [];
  }

  lemma DegreeInOne<E>(r: EdgeRecord<E>, v: VertexId)
    ensures DegreeIn([r], v) == Hits(r, v)
    ensures DegreeIn<E>([], v) == 0
  {
    assert [r][..0] == [];
  }

  /** The hash owner of `v` receives exactly one copy of each edge touching
      `v`, so its own count of `v` is the global degree. */
  lemma {:induction false} OwnerSeesFullDegree<E>(edges: seq<Edge<E>>, n: nat, h: VertexId -> nat, v: VertexId)
    requires n > 0
    ensures DegreeIn(Inbox(Routed(edges, n, h), Owner(v, n, h)), v) == EdgeDegree(edges, v)
  {
    if edges != [] {
      var pre, e := edges[..|edges| - 1], edges[|edges| - 1];
      var m := Owner(v, n, h);
      OwnerSeesFullDegree(pre, n, h, v);
      InboxAppend(Routed(pre, n, h), Route(e, n, h), m);
      DegreeInAppend(Inbox(Routed(pre, n, h), m), Inbox(Route(e, n, h), m), v);
      RouteDegree(e, n, h, v);
    }
  }

  /** The filter at the regrouping step, written with the source's arithmetic. */
  predicate Passes<E>(r: EdgeRecord<E>, deg: map<VertexId, nat>)
  {
    r.flag.Code() == 0
    || (if Get0(deg, r.source) >= Get0(deg, r.target) then 1 else 0) + 1 == r.flag.Code()
  }

  /** What the `+1` encoding means: an unflagged record always passes; the
      source-side copy passes exactly when the source has the smaller degree,
      the target-side copy exactly when it does not (ties included). */
  lemma PassesByFlag<E>(r: EdgeRecord<E>, deg: map<VertexId, nat>)
    ensures r.flag == Unflagged ==> Passes(r, deg)
    ensures r.flag == SourceSide ==> (Passes(r, deg) <==> Get0(deg, r.source) < Get0(deg, r.target))
    ensures r.flag == TargetSide ==> (Passes(r, deg) <==> Get0(deg, r.source) >= Get0(deg, r.target))
  {
  }

  /** Number of routed records that pass the filter on the machine they reach,
      where `degAt(m)` is machine m's degree table. */
  function PassCount<E>(sends: seq<Send<EdgeRecord<E>>>, degAt: ProcId -> map<VertexId, nat>): nat
  {
    if sends == [] then 0
    else
      var s := sends[|sends| - 1];
      PassCount(sends[..|sends| - 1], degAt) + (if Passes(s.rec, degAt(s.dest)) then 1 else 0)
  }

  lemma {:induction false} PassCountAppend<E>(a: seq<Send<EdgeRecord<E>>>, b: seq<Send<EdgeRecord<E>>>,
                                             degAt: ProcId -> map<VertexId, nat>)
    ensures PassCount(a + b, degAt) == PassCount(a, degAt) + PassCount(b, degAt)
  {
    if b == [] {
      assert a + b == a;
    } else {
      assert (a + b)[..|a + b| - 1] == a + b[..|b| - 1];
      PassCountAppend(a, b[..|b| - 1], degAt);
    }
  }

  /** When the machines holding copies of an edge agree on both endpoint
      degrees, exactly one copy passes the filter. */
  lemma KeptOnce<E>(e: Edge<E>, n: nat, h: VertexId -> nat, degAt: ProcId -> map<VertexId, nat>, ds: nat, dt: nat)
    requires n > 0
    requires forall s :: s in Route(e, n, h) ==>
      Get0(degAt(s.dest), e.source) == ds && Get0(degAt(s.dest), e.target) == dt
    ensures PassCount(Route(e, n, h), degAt) == 1
  {
    var r := Route(e, n, h);
    if |r| == 1 {
      assert r[..0] == [];
    } else {
      assert r[0] in r && r[1] in r;
      assert r[..1][..0] == [];
      assert r[..1] == [r[0]];
      assert r[0].rec == EdgeRecord(e.source, e.target, e.data, SourceSide);
      assert r[1].rec == EdgeRecord(e.source, e.target, e.data, TargetSide);
      assert Passes(r[0].rec, degAt(r[0].dest)) <==> ds < dt;
      assert Passes(r[1].rec, degAt(r[1].dest)) <==> ds >= dt;
      assert PassCount(r[..1], degAt) == if Passes(r[0].rec, degAt(r[0].dest)) then 1 else 0;
    }
  }

  /** A submitted edge whose copies sit on machines holding the global degree
      of both of its endpoints has exactly one copy kept. */
  lemma EdgeKeptOnce<E>(all: seq<Edge<E>>, n: nat, h: VertexId -> nat,
                        degAt: ProcId -> map<VertexId, nat>, e: Edge<E>)
    requires n > 0
    requires e in all
    requires forall s :: s in Routed(all, n, h) ==>
      Get0(degAt(s.dest), s.rec.source) == EdgeDegree(all, s.rec.source)
      && Get0(degAt(s.dest), s.rec.target) == EdgeDegree(all, s.rec.target)
    ensures PassCount(Route(e, n, h), degAt) == 1
  {
    var k :| 0 <= k < |all| && all[k] == e;
    forall s | s in Route(e, n, h)
      ensures Get0(degAt(s.dest), e.source) == EdgeDegree(all, e.source)
      ensures Get0(degAt(s.dest), e.target) == EdgeDegree(all, e.target)
    {
      RoutedMember(all, n, h, s);
      RouteEdgeRecords(e.source, e.target, e.data, Owner(e.source, n, h), Owner(e.target, n, h));
    }
    KeptOnce(e, n, h, degAt, EdgeDegree(all, e.source), EdgeDegree(all, e.target));
  }

  /** With global degrees everywhere, the kept copies of a run of submitted
      edges number exactly the edges of the run. */
  lemma {:induction false} ClusterKeptCount<E>(edges: seq<Edge<E>>, n: nat, h: VertexId -> nat,
                                             degAt: ProcId -> map<VertexId, nat>, all: seq<Edge<E>>)
    requires n > 0
    requires forall i :: 0 <= i < |edges| ==> edges[i] in all
    requires forall s :: s in Routed(all, n, h) ==>
      Get0(degAt(s.dest), s.rec.source) == EdgeDegree(all, s.rec.source)
      && Get0(degAt(s.dest), s.rec.target) == EdgeDegree(all, s.rec.target)
    ensures PassCount(Routed(edges, n, h), degAt) == |edges|
  {
    if edges != [] {
      var pre, e := edges[..|edges| - 1], edges[|edges| - 1];
      ClusterKeptCount(pre, n, h, degAt, all);
      PassCountAppend(Routed(pre, n, h), Route(e, n, h), degAt);
      EdgeKeptOnce(all, n, h, degAt, e);
    }
  }

  /** Given degree tables that hold the global degree of every endpoint of
      every record the machine received, exactly one copy of every submitted
      edge is kept, so the cluster as a whole keeps as many records as edges
      were submitted. */
  lemma ClusterKeepsEachEdgeOnce<E>(edges: seq<Edge<E>>, n: nat, h: VertexId -> nat,
                                    degAt: ProcId -> map<VertexId, nat>)
    requires n > 0
    requires forall s :: s in Routed(edges, n, h) ==>
      Get0(degAt(s.dest), s.rec.source) == EdgeDegree(edges, s.rec.source)
      && Get0(degAt(s.dest), s.rec.target) == EdgeDegree(edges, s.rec.target)
    ensures forall i :: 0 <= i < |edges| ==> PassCount(Route(edges[i], n, h), degAt) == 1
    ensures PassCount(Routed(edges, n, h), degAt) == |edges|
  {
    forall i | 0 <= i < |edges|
      ensures PassCount(Route(edges[i], n, h), degAt) == 1
    {
      EdgeKeptOnce(edges, n, h, degAt, edges[i]);
    }
    ClusterKeptCount(edges, n, h, degAt, edges);
  }

  /** `degree_exchange_set[q]`: the vertex ids whose counts a machine pushes,
      unrequested, to machine `q`: for a
      source-side record, the source's count goes to the target's owner; for a
      target-side record, the target's count goes to the source's owner. */
  function ExchangeSet<E(==)>(inbox: seq<EdgeRecord<E>>, q: ProcId, n: nat, h: VertexId -> nat): set<VertexId>
    requires n > 0
  {
    (set r | r in inbox && r.flag == SourceSide && Owner(r.target, n, h) == q :: r.source)
    + (set r | r in inbox && r.flag == TargetSide && Owner(r.source, n, h) == q :: r.target)
  }

  /** The vertex ids that are an endpoint of some record. */
  function Endpoints<E>(recs: seq<EdgeRecord<E>>): set<VertexId>
  {
    if recs == [] then {}
    else Endpoints(recs[..|recs| - 1]) + {recs[|recs| - 1].source, recs[|recs| - 1].target}
  }

  lemma {:induction false} EndpointsMember<E>(recs: seq<EdgeRecord<E>>, v: VertexId)
    ensures v in Endpoints(recs) <==> exists x :: x in recs && (x.source == v || x.target == v)
  {
    if recs != [] {
      var pre := recs[..|recs| - 1];
      EndpointsMember(pre, v);
      assert recs == pre + [recs[|recs| - 1]];
    }
  }

  /** A vertex that is no endpoint of any record has degree 0. */
  lemma {:induction false} NoEndpointNoDegree<E>(recs: seq<EdgeRecord<E>>, v: VertexId)
    requires v !in Endpoints(recs)
    ensures DegreeIn(recs, v) == 0
  {
    if recs != [] {
      NoEndpointNoDegree(recs[..|recs| - 1], v);
    }
  }

  /** The local degree table after counting: every endpoint of a received
      record, mapped to its count. */
  function CountMap<E>(recs: seq<EdgeRecord<E>>): (m: map<VertexId, nat>)
    ensures forall r :: r in recs ==> r.source in m && r.target in m
  {
    assert forall r :: r in recs ==> r.source in Endpoints(recs) && r.target in Endpoints(recs) by {
      forall r | r in recs
        ensures r.source in Endpoints(recs) && r.target in Endpoints(recs)
      {
        EndpointsMember(recs, r.source);
        EndpointsMember(recs, r.target);
      }
    }
    map v | v in Endpoints(recs) :: DegreeIn(recs, v)
  }

  /** Every vertex counts, present or not, as its degree over the records. */
  lemma CountMapIsDegree<E>(recs: seq<EdgeRecord<E>>, v: VertexId)
    ensures Get0(CountMap(recs), v) == DegreeIn(recs, v)
  {
    if v !in Endpoints(recs) {
      NoEndpointNoDegree(recs, v);
    }
  }

  /** Received degrees overwrite the local table in arrival order. */
  function Overwrite(deg: map<VertexId, nat>, arrived: seq<DegreeRecord>): map<VertexId, nat>
  {
    if arrived == [] then deg
    else Overwrite(deg, arrived[..|arrived| - 1])[arrived[|arrived| - 1].vid := arrived[|arrived| - 1].degree]
  }

  /** When every received degree record about `v` carries the same degree `d`, the table ends
      up holding `d` if any record about `v` arrived and its own count otherwise. */
  lemma {:induction false} OverwriteUniform(deg: map<VertexId, nat>, arrived: seq<DegreeRecord>, v: VertexId, d: nat)
    requires forall r :: r in arrived && r.vid == v ==> r.degree == d
    ensures (exists r :: r in arrived && r.vid == v) ==> Get0(Overwrite(deg, arrived), v) == d
    ensures (forall r :: r in arrived ==> r.vid != v) ==> Get0(Overwrite(deg, arrived), v) == Get0(deg, v)
  {
    if arrived != [] {
      var pre := arrived[..|arrived| - 1];
      OverwriteUniform(deg, pre, v, d);
      if exists r :: r in arrived && r.vid == v {
        if arrived[|arrived| - 1].vid != v {
          var r :| r in arrived && r.vid == v;
          assert r in pre;
        }
      }
    }
  }

  /** Record `r` is one that some machine `p` pushes to `m`: a vertex in
      `p`'s exchange set for `m`, with `p`'s own count. */
  ghost predicate IsDegreeSentTo<E>(routed: seq<Send<EdgeRecord<E>>>, m: ProcId, n: nat, h: VertexId -> nat, r: DegreeRecord)
    requires n > 0
  {
    exists p :: 0 <= p < n && r.vid in ExchangeSet(Inbox(routed, p), m, n, h)
      && r.degree == DegreeIn(Inbox(routed, p), r.vid)
  }

  /** A vertex in `p`'s exchange set for `m` is one `p` owns, and `m` is another machine. */
  lemma SenderOwns<E>(edges: seq<Edge<E>>, n: nat, h: VertexId -> nat, p: ProcId, m: ProcId, v: VertexId)
    requires n > 0
    requires v in ExchangeSet(Inbox(Routed(edges, n, h), p), m, n, h)
    ensures p == Owner(v, n, h) && m != p
  {
    var inbox := Inbox(Routed(edges, n, h), p);
    var r :| r in inbox && ((r.flag == SourceSide && Owner(r.target, n, h) == m && r.source == v)
                          || (r.flag == TargetSide && Owner(r.source, n, h) == m && r.target == v));
    ReceivedFromEdge(edges, n, h, p, r);
    var i :| 0 <= i < |edges| && Send(p, r) in Route(edges[i], n, h);
    var e := edges[i];
    RouteEdgeRecords(e.source, e.target, e.data, Owner(e.source, n, h), Owner(e.target, n, h));
  }

  /** After the exchange, machine `m` holds the global degree of both
      endpoints of every record it received, whatever order the degree
      records arrived in: its own count for the vertices it owns, the owner's count
      (which is global) for the others. */
  lemma ExchangedDegreesAreGlobal<E>(edges: seq<Edge<E>>, n: nat, h: VertexId -> nat, m: ProcId,
                                     arrived: seq<DegreeRecord>, rec: EdgeRecord<E>, v: VertexId)
    requires n > 0
    requires forall r :: r in arrived ==> IsDegreeSentTo(Routed(edges, n, h), m, n, h, r)
    requires forall p, u :: 0 <= p < n && u in ExchangeSet(Inbox(Routed(edges, n, h), p), m, n, h) ==>
      DegreeRecord(u, DegreeIn(Inbox(Routed(edges, n, h), p), u)) in arrived
    requires rec in Inbox(Routed(edges, n, h), m)
    requires v == rec.source || v == rec.target
    ensures Get0(Overwrite(CountMap(Inbox(Routed(edges, n, h), m)), arrived), v) == EdgeDegree(edges, v)
  {
    var routed := Routed(edges, n, h);
    var inbox := Inbox(routed, m);
    var ov := Owner(v, n, h);
    forall r | r in arrived && r.vid == v
      ensures r.degree == EdgeDegree(edges, v) && ov != m
    {
      var p :| 0 <= p < n && r.vid in ExchangeSet(Inbox(routed, p), m, n, h)
        && r.degree == DegreeIn(Inbox(routed, p), r.vid);
      SenderOwns(edges, n, h, p, m, v);
      OwnerSeesFullDegree(edges, n, h, v);
    }
    OverwriteUniform(CountMap(inbox), arrived, v, EdgeDegree(edges, v));
    if ov == m {
      OwnerSeesFullDegree(edges, n, h, v);
    } else {
      OwnerSends(edges, n, h, m, rec, v);
      assert DegreeRecord(v, DegreeIn(Inbox(routed, ov), v)) in arrived;
    }
  }

  /** A machine that received a record without owning one of its endpoints
      is pushed that endpoint's degree by its owner: the owner received the
      other copy of the record. */
  lemma OwnerSends<E>(edges: seq<Edge<E>>, n: nat, h: VertexId -> nat, m: ProcId, rec: EdgeRecord<E>, v: VertexId)
    requires n > 0
    requires rec in Inbox(Routed(edges, n, h), m)
    requires v == rec.source || v == rec.target
    requires Owner(v, n, h) != m
    ensures v in ExchangeSet(Inbox(Routed(edges, n, h), Owner(v, n, h)), m, n, h)
  {
    var routed := Routed(edges, n, h);
    ReceivedFromEdge(edges, n, h, m, rec);
    var i :| 0 <= i < |edges| && Send(m, rec) in Route(edges[i], n, h);
    var e := edges[i];
    var os, ot := Owner(e.source, n, h), Owner(e.target, n, h);
    RouteEdgeRecords(e.source, e.target, e.data, os, ot);
    var twin := if v == rec.target then Send(ot, EdgeRecord(e.source, e.target, e.data, TargetSide))
                else Send(os, EdgeRecord(e.source, e.target, e.data, SourceSide));
    assert twin in Route(e, n, h);
    RoutedMember(edges, n, h, twin);
    InboxMember(routed, twin.dest, twin.rec);
  }

  /** Machine m's degree table after the exchange: its own counts from the
      records it received, overwritten by the degree records pushed to it. */
  function ExchangedTables<E>(edges: seq<Edge<E>>, n: nat, h: VertexId -> nat,
                              arrived: ProcId -> seq<DegreeRecord>): ProcId -> map<VertexId, nat>
    requires n > 0
  {
    m => Overwrite(CountMap(Inbox(Routed(edges, n, h), m)), arrived(m))
  }

  /** The whole de-duplication pass: when every machine has received the
      degree records pushed to it (and only those), filtering on the tables
      the exchange built keeps exactly one copy of every submitted edge. */
  lemma ExchangeKeepsEachEdgeOnce<E>(edges: seq<Edge<E>>, n: nat, h: VertexId -> nat,
                                     arrived: ProcId -> seq<DegreeRecord>)
    requires n > 0
    requires forall m, r :: 0 <= m < n && r in arrived(m) ==> IsDegreeSentTo(Routed(edges, n, h), m, n, h, r)
    requires forall m, p, u :: 0 <= m < n && 0 <= p < n && u in ExchangeSet(Inbox(Routed(edges, n, h), p), m, n, h) ==>
      DegreeRecord(u, DegreeIn(Inbox(Routed(edges, n, h), p), u)) in arrived(m)
    ensures forall i :: 0 <= i < |edges| ==> PassCount(Route(edges[i], n, h), ExchangedTables(edges, n, h, arrived)) == 1
    ensures PassCount(Routed(edges, n, h), ExchangedTables(edges, n, h, arrived)) == |edges|
  {
    var routed := Routed(edges, n, h);
    var degAt := ExchangedTables(edges, n, h, arrived);
    forall s | s in routed
      ensures Get0(degAt(s.dest), s.rec.source) == EdgeDegree(edges, s.rec.source)
      ensures Get0(degAt(s.dest), s.rec.target) == EdgeDegree(edges, s.rec.target)
    {
      RoutedMember(edges, n, h, s);
      var i :| 0 <= i < |edges| && s in Route(edges[i], n, h);
      var e := edges[i];
      RouteEdgeRecords(e.source, e.target, e.data, Owner(e.source, n, h), Owner(e.target, n, h));
      assert s.dest < n;
      InboxMember(routed, s.dest, s.rec);
      ExchangedDegreesAreGlobal(edges, n, h, s.dest, arrived(s.dest), s.rec, s.rec.source);
      ExchangedDegreesAreGlobal(edges, n, h, s.dest, arrived(s.dest), s.rec, s.rec.target);
    }
    ClusterKeepsEachEdgeOnce(edges, n, h, degAt);
  }
}
