/** The per-machine ingress object: the outboxes `add_edge` and `add_vertex`
    fill, the mirror table `mht` that `sync_assign` maintains, and the master
    election over that table.

    Outboxes stand for the buffered exchanges: a send appends a `Send` record,
    and what a machine receives is handed to the methods as a parameter. */
module Ingress {
  import opened Common
  import opened Routing
  import opened Greedy
  import opened Mirrors
  import opened Assign

  class ConstellIngress<V, E> {
    /** `rpc.numprocs()` and `rpc.procid()`. */
    const numProcs: nat
    const procId: ProcId
    /** Mirror announcements are drained every `interval` assigned edges. */
    const interval: nat
    /** Set by the constructor exactly when the cluster has one machine. */
    const standalone: bool
    /** `graph_hash::hash_vertex` and `graph_hash::hash_edge`. */
    const hashVertex: VertexId -> nat
    const hashEdge: (VertexId, VertexId) -> nat

    /** `edge_exchange`, `vertex_exchange` and `mirror_exchange`, as the
        records sent so far. */
    var edgeSends: seq<Send<EdgeRecord<E>>>
    var vertexSends: seq<Send<VertexBufferRecord<V>>>
    var mirrorSends: seq<Send<MirrorRecord>>
    /** The mirror hash table. */
    var mht: Mht

    ghost predicate Valid()
      reads this
    {
      && numProcs > 0 && procId < numProcs && interval > 0
      && standalone == (numProcs == 1)
      && WellFormed(mht, numProcs)
    }

    constructor (numProcs: nat, procId: ProcId, interval: nat,
                 hashVertex: VertexId -> nat, hashEdge: (VertexId, VertexId) -> nat)
      requires numProcs > 0 && procId < numProcs && interval > 0
      ensures Valid()
      ensures this.numProcs == numProcs && this.procId == procId && this.interval == interval
      ensures this.hashVertex == hashVertex && this.hashEdge == hashEdge
      ensures standalone == (numProcs == 1)
      ensures edgeSends == [] && vertexSends == [] && mirrorSends == [] && mht == map[]
    {
      this.numProcs := numProcs;
      this.procId := procId;
      this.interval := interval;
      this.standalone := numProcs == 1;
      this.hashVertex := hashVertex;
      this.hashEdge := hashEdge;
      edgeSends := [];
      vertexSends := [];
      mirrorSends := [];
      mht := map[];
    }

    /** `add_edge`: send the edge to the owner of each endpoint, once unflagged
        when they coincide, otherwise flagged 1 to the source's owner and
        flagged 2 to the target's. */
    method AddEdge(source: VertexId, target: VertexId, data: E)
      requires Valid()
      modifies this
      ensures Valid()
      ensures edgeSends == old(edgeSends)
        + RouteEdge(source, target, data, Owner(source, numProcs, hashVertex), Owner(target, numProcs, hashVertex))
      ensures vertexSends == old(vertexSends) && mirrorSends == old(mirrorSends) && mht == old(mht)
    {
      var sourceOwner := if standalone then 0 else hashVertex(source) % numProcs;
      var targetOwner := if standalone then 0 else hashVertex(target) % numProcs;
      if sourceOwner == targetOwner {
        edgeSends := edgeSends + [Send(sourceOwner, EdgeRecord(source, target, data, Unflagged))];
      } else {
        edgeSends := edgeSends + [Send(sourceOwner, EdgeRecord(source, target, data, SourceSide))];
        edgeSends := edgeSends + [Send(targetOwner, EdgeRecord(source, target, data, TargetSide))];
      }
    }

    /** `add_vertex`: send the payload to the owner of the vertex. */
    method AddVertex(vid: VertexId, data: V)
      requires Valid()
      modifies this
      ensures Valid()
      ensures vertexSends == old(vertexSends) + [Send(Owner(vid, numProcs, hashVertex), VertexBufferRecord(vid, data))]
      ensures edgeSends == old(edgeSends) && mirrorSends == old(mirrorSends) && mht == old(mht)
    {
      var owner := if standalone then 0 else hashVertex(vid) % numProcs;
      vertexSends := vertexSends + [Send(owner, VertexBufferRecord(vid, data))];
    }

    /** The announcement loop of `sync_assign`: set the bit locally when the
        loop reaches this machine, send the notice to every other machine. */
    method BroadcastMirror(rec: MirrorRecord)
      requires rec.vid in mht && procId < numProcs
      modifies this
      ensures mht == old(mht)[rec.vid := old(mht)[rec.vid] + {rec.pid}]
      ensures mirrorSends == old(mirrorSends) + Notices(rec, numProcs, procId)
      ensures edgeSends == old(edgeSends) && vertexSends == old(vertexSends)
    {
      var pid := 0;
      while pid < numProcs
        invariant 0 <= pid <= numProcs
        invariant mirrorSends == old(mirrorSends) + Notices(rec, pid, procId)
        invariant mht == if procId < pid then old(mht)[rec.vid := old(mht)[rec.vid] + {rec.pid}] else old(mht)
        invariant edgeSends == old(edgeSends) && vertexSends == old(vertexSends)
      {
        if pid == procId {
          mht := mht[rec.vid := mht[rec.vid] + {rec.pid}];
        } else {
          mirrorSends := mirrorSends + [Send(pid, rec)];
        }
        pid := pid + 1;
      }
    }

    /** Drain received announcements into the table, in arrival order. */
    method DrainMirrors(batch: seq<MirrorRecord>)
      modifies this
      ensures mht == ApplyNotices(old(mht), batch)
      ensures edgeSends == old(edgeSends) && vertexSends == old(vertexSends) && mirrorSends == old(mirrorSends)
    {
      for i := 0 to |batch|
        invariant mht == ApplyNotices(old(mht), batch[..i])
        invariant edgeSends == old(edgeSends) && vertexSends == old(vertexSends) && mirrorSends == old(mirrorSends)
      {
        var r := batch[i];
        if r.vid !in mht {
          mht := mht[r.vid := {}];
        }
        mht := mht[r.vid := mht[r.vid] + {r.pid}];
        assert batch[..i + 1][..i] == batch[..i];
      }
      assert batch[..|batch|] == batch;
    }

    /** Record a replica of `v` on machine `best`: announce it unless the
        bit is already set. */
    method MarkReplica(v: VertexId, best: ProcId)
      requires v in mht && procId < numProcs
      modifies this
      ensures mht == SetBit(old(mht), v, best)
      ensures mirrorSends == old(mirrorSends) + NoticesFor(old(mht)[v], v, best, numProcs, procId)
      ensures edgeSends == old(edgeSends) && vertexSends == old(vertexSends)
    {
      if best !in mht[v] {
        BroadcastMirror(MirrorRecord(v, best));
      } else {
        assert mht[v] + {best} == mht[v];
      }
    }

    /** One iteration of the `sync_assign` loop, up to the periodic drain,
        with the assigner `choose`; returns the machine the edge went to. */
    method AssignOne(choose: Chooser, rec: EdgeRecord<E>, loads: array<nat>) returns (best: ProcId)
      requires procId < numProcs && loads.Length == numProcs && InRange(choose)
      modifies this, loads
      ensures best == choose(rec.source, rec.target, Bits(old(mht), rec.source), Bits(old(mht), rec.target), old(loads[..]))
      ensures best < numProcs
      ensures mht == SetBit(SetBit(Touched(old(mht), rec), rec.source, best), rec.target, best)
      ensures loads[..] == old(loads[..])[best := old(loads[best]) + 1]
      ensures edgeSends == old(edgeSends) + [Send(best, rec)]
      ensures mirrorSends == old(mirrorSends)
        + NoticesFor(Bits(old(mht), rec.source), rec.source, best, numProcs, procId)
        + NoticesFor(if rec.target == rec.source then Bits(old(mht), rec.source) + {best}
                     else Bits(old(mht), rec.target), rec.target, best, numProcs, procId)
      ensures vertexSends == old(vertexSends)
    {
      if rec.source !in mht {
        mht := mht[rec.source := {}];
      }
      if rec.target !in mht {
        mht := mht[rec.target := {}];
      }
      best := choose(rec.source, rec.target, mht[rec.source], mht[rec.target], loads[..]);
      edgeSends := edgeSends + [Send(best, rec)];
      MarkReplica(rec.source, best);
      MarkReplica(rec.target, best);
      loads[best] := loads[best] + 1;
    }

    /** The body of the `sync_assign` loop for the edge at position `k`:
        assign it with `c.choose`, then drain `c.arrivals(k)` when `k` is a
        multiple of the interval. */
    method AssignStep(ghost c: Config, choose: Chooser, arrivals: nat -> seq<MirrorRecord>,
                      rec: EdgeRecord<E>, k: nat, loads: array<nat>)
      requires c.Valid() && c.choose == choose && c.arrivals == arrivals
      requires c.self == procId && c.interval == interval
      requires procId < numProcs && loads.Length == numProcs
      modifies this, loads
      ensures AssignState(mht, loads[..], edgeSends, mirrorSends)
           == Step(c, AssignState(old(mht), old(loads[..]), old(edgeSends), old(mirrorSends)), rec, k)
      ensures vertexSends == old(vertexSends)
    {
      ghost var before := AssignState(mht, loads[..], edgeSends, mirrorSends);
      ChosenBits(c, before, rec);
      var best := AssignOne(choose, rec, loads);
      HandleFields(before, rec, best, procId);
      if k % interval == 0 {
        DrainMirrors(arrivals(k));
      }
    }

    /** The loop of `sync_assign` over `buffer`, with the assigner `choose`. */
    method AssignLoop(ghost c: Config, choose: Chooser, arrivals: nat -> seq<MirrorRecord>,
                      buffer: seq<EdgeRecord<E>>, loads: array<nat>)
      requires c.Valid() && c.choose == choose && c.arrivals == arrivals
      requires c.self == procId && c.interval == interval
      requires procId < numProcs && loads.Length == numProcs
      modifies this, loads
      ensures AssignState(mht, loads[..], edgeSends, mirrorSends)
           == AssignAll(c, AssignState(old(mht), old(loads[..]), old(edgeSends), old(mirrorSends)), buffer)
      ensures vertexSends == old(vertexSends)
    {
      ghost var st0 := AssignState(mht, loads[..], edgeSends, mirrorSends);
      var k := 0;
      while k < |buffer|
        invariant 0 <= k <= |buffer|
        invariant AssignState(mht, loads[..], edgeSends, mirrorSends) == AssignAll(c, st0, buffer[..k])
        invariant vertexSends == old(vertexSends)
      {
        AssignStep(c, choose, arrivals, buffer[k], k, loads);
        assert buffer[..k + 1][..k] == buffer[..k];
        k := k + 1;
      }
      assert buffer[..k] == buffer;
    }

    /** `sync_assign`: assign every edge of `buffer` with the greedy
        heuristic and keep the mirror table up to date. `arrivals(k)` is what
        the drain after edge `k` receives, `finalArrivals` what the final drain
        receives; both only name machines of the cluster. */
    method SyncAssign(deg: map<VertexId, nat>, buffer: seq<EdgeRecord<E>>, loads: array<nat>,
                      arrivals: nat -> seq<MirrorRecord>, finalArrivals: seq<MirrorRecord>)
      requires Valid() && loads.Length == numProcs
      requires forall k :: NoticesBelow(arrivals(k), numProcs)
      requires NoticesBelow(finalArrivals, numProcs)
      modifies this, loads
      ensures Valid()
      ensures var r := SyncAssignResult(Config(procId, interval, GreedyChooser(deg, hashEdge), arrivals, finalArrivals),
                                        AssignState(old(mht), old(loads[..]), old(edgeSends), old(mirrorSends)), buffer);
        mht == r.mht && loads[..] == r.loads && edgeSends == r.edgeSends && mirrorSends == r.mirrorSends
      ensures vertexSends == old(vertexSends)
    {
      ghost var c := Config(procId, interval, GreedyChooser(deg, hashEdge), arrivals, finalArrivals);
      ghost var st0 := AssignState(mht, loads[..], edgeSends, mirrorSends);
      GreedyInRange(deg, hashEdge);
      AssignLoop(c, GreedyChooser(deg, hashEdge), arrivals, buffer, loads);
      DrainMirrors(finalArrivals);
      SyncAssignWellFormed(c, st0, buffer);
    }
  }
}
