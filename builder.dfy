/** The machine state of the second half of `finalize`: the tables,
    records, local edges and payloads one machine builds, updated in place
    by the loops of `distributed_constell_ingress::finalize`. Each method is
    specified by the value-level functions of `Partition`. */
module Builder {
  import opened Common
  import opened LocalIds
  import opened Partition

  /** The local-graph state `finalize` builds on one machine. */
  class LocalGraphBuilder<V, E> {
    /** `rpc.procid()`. */
    const procId: ProcId
    /** `lvid_start`: the number of local vertices when `finalize` began. */
    const lvidStart: nat
    /** `graph.vid2lvid`. */
    var vid2lvid: map<VertexId, nat>
    /** `vid2lvid_buffer`: the ids of vertices new to this machine. */
    var buffer: map<VertexId, nat>
    /** `updated_lvids`. */
    var updated: set<nat>
    /** `graph.lvid2record`. */
    var records: seq<VertexRecord>
    /** The edges added to the local graph. */
    var localEdges: seq<LocalEdge<E>>
    /** The vertex payloads of the local graph, by local id. */
    var vertexData: map<nat, V>

    /** The three id tables, as one value. */
    function Tables(): Ids
      reads this
    {
      Ids(vid2lvid, buffer, updated)
    }

    /** The invariant until the merge: the id tables are well formed and
      `lvid_start` is the size of the old table. */
    ghost predicate Valid()
      reads this
    {
      lvidStart == |vid2lvid| && Good(Tables())
    }

    /** The state on entry to the local-graph phase of `finalize`: the
        graph's own tables, an empty buffer and no marks. */
    constructor(procId: ProcId, vid2lvid: map<VertexId, nat>, records: seq<VertexRecord>,
                localEdges: seq<LocalEdge<E>>, vertexData: map<nat, V>)
      requires Dense(vid2lvid, 0)
      ensures Valid()
      ensures this.procId == procId && lvidStart == |vid2lvid|
      ensures this.vid2lvid == vid2lvid && buffer == map[] && updated == {}
      ensures this.records == records && this.localEdges == localEdges && this.vertexData == vertexData
    {
      this.procId := procId;
      this.lvidStart := |vid2lvid|;
      this.vid2lvid := vid2lvid;
      this.buffer := map[];
      this.updated := {};
      this.records := records;
      this.localEdges := localEdges;
      this.vertexData := vertexData;
    }

    /** The id of `v`: its old id (marked updated), its buffered id, or the
        next new id. */
    method LocalId(v: VertexId) returns (lvid: nat)
      requires lvidStart == |vid2lvid|
      modifies this
      ensures Tables() == Resolve(old(Tables()), v)
      ensures lvid == Tables().Lookup(v)
      ensures records == old(records) && localEdges == old(localEdges) && vertexData == old(vertexData)
    {
      if v !in vid2lvid {
        if v !in buffer {
          lvid := lvidStart + |buffer|;
          buffer := buffer[v := lvid];
        } else {
          lvid := buffer[v];
        }
      } else {
        lvid := vid2lvid[v];
        updated := updated + {lvid};
      }
    }

    /** One received edge: resolve its source, then its target, and add the
        local edge. */
    method AddLocalEdge(rec: EdgeRecord<E>)
      requires lvidStart == |vid2lvid|
      modifies this
      ensures Tables() == Resolve(Resolve(old(Tables()), rec.source), rec.target)
      ensures Tables().Known(rec.source) && Tables().Known(rec.target)
      ensures localEdges == old(localEdges) + [LocalEdge(Tables().Lookup(rec.source), Tables().Lookup(rec.target), rec.data)]
      ensures records == old(records) && vertexData == old(vertexData)
    {
      var sourceLvid := LocalId(rec.source);
      ghost var t1 := Tables();
      var targetLvid := LocalId(rec.target);
      ResolveKeeps(t1, rec.target);
      localEdges := localEdges + [LocalEdge(sourceLvid, targetLvid, rec.data)];
    }

    /** The local-graph construction of `finalize`: every received edge
        becomes a local edge between the local ids of its endpoints, and the
        id tables are those resolving every endpoint in arrival order. */
    method ConstructLocalEdges(inbox: seq<EdgeRecord<E>>)
      requires lvidStart == |vid2lvid|
      modifies this
      ensures Tables() == ResolveAll(old(Tables()), EndpointSeq(inbox))
      ensures EndsKnown(inbox, Tables())
      ensures localEdges == old(localEdges) + Localize(inbox, Tables())
      ensures records == old(records) && vertexData == old(vertexData)
    {
      ghost var t0 := Tables();
      ghost var e0 := localEdges;
      for i := 0 to |inbox|
        invariant Tables() == ResolveAll(t0, EndpointSeq(inbox[..i]))
        invariant EndsKnown(inbox[..i], Tables())
        invariant localEdges == e0 + Localize(inbox[..i], Tables())
        invariant records == old(records) && vertexData == old(vertexData)
      {
        ghost var t := Tables();
        AddLocalEdge(inbox[i]);
        assert inbox[..i + 1] == inbox[..i] + [inbox[i]];
        EdgeStep(t0, inbox[..i], inbox[i], t, Tables());
      }
      assert inbox[..|inbox|] == inbox;
    }

    /** One received payload: resolve its vertex and store the payload. */
    method AddVertexData(rec: VertexBufferRecord<V>)
      requires lvidStart == |vid2lvid|
      modifies this
      ensures Tables() == Resolve(old(Tables()), rec.vid)
      ensures vertexData == old(vertexData)[Tables().Lookup(rec.vid) := rec.data]
      ensures records == old(records) && localEdges == old(localEdges)
    {
      var lvid := LocalId(rec.vid);
      vertexData := vertexData[lvid := rec.data];
    }

    /** The vertex-data receipt of `finalize`: every payload is stored at
        its vertex's local id, in arrival order. */
    method ReceiveVertexData(inbox: seq<VertexBufferRecord<V>>)
      requires lvidStart == |vid2lvid|
      modifies this
      ensures Tables() == ResolveAll(old(Tables()), VidSeq(inbox))
      ensures VidsKnown(inbox, Tables())
      ensures vertexData == StoreData(old(vertexData), inbox, Tables())
      ensures records == old(records) && localEdges == old(localEdges)
    {
      ghost var t0 := Tables();
      ghost var d0 := vertexData;
      for i := 0 to |inbox|
        invariant Tables() == ResolveAll(t0, VidSeq(inbox[..i]))
        invariant VidsKnown(inbox[..i], Tables())
        invariant vertexData == StoreData(d0, inbox[..i], Tables())
        invariant records == old(records) && localEdges == old(localEdges)
      {
        ghost var t := Tables();
        AddVertexData(inbox[i]);
        assert inbox[..i + 1] == inbox[..i] + [inbox[i]];
        DataStep(t0, d0, inbox[..i], inbox[i], t, Tables());
      }
      assert inbox[..|inbox|] == inbox;
    }

    /** The owner assignment of `finalize`: the records grow to one per
        local vertex, and the record of every new vertex gets its global id
        and its elected master; old records are untouched. */
    method AssignOwners(masterMap: map<VertexId, ProcId>)
      requires Valid() && |records| == lvidStart
      modifies this
      ensures Valid() && Tables() == old(Tables())
      ensures OwnersAssigned(records, buffer, lvidStart, masterMap)
      ensures records[..lvidStart] == old(records)
      ensures forall v :: v in buffer ==> records[buffer[v]] == Blank.(gvid := v, owner := Get0(masterMap, v))
      ensures localEdges == old(localEdges) && vertexData == old(vertexData)
    {
      var buf := buffer;
      assert Dense(buf, lvidStart);
      var recs := records + Blanks(|buf|);
      var todo := buf.Keys;
      while todo != {}
        invariant todo <= buf.Keys
        invariant |recs| == lvidStart + |buf|
        invariant recs[..lvidStart] == old(records)
        invariant forall v :: v in buf ==>
          recs[buf[v]] == if v in todo then Blank else Blank.(gvid := v, owner := Get0(masterMap, v))
        decreases |todo|
      {
        var v :| v in todo;
        var lvid := buf[v];
        recs := recs[lvid := recs[lvid].(gvid := v, owner := Get0(masterMap, v))];
        todo := todo - {v};
      }
      records := recs;
    }

    /** The handshake send loop: the global id of every new vertex owned by
        another machine, sent to its owner. */
    method HandshakeSends() returns (sends: seq<Send<VertexId>>)
      requires lvidStart <= |records|
      ensures sends == HandshakeOf(records[lvidStart..], procId)
    {
      sends := [];
      for i := lvidStart to |records|
        invariant sends == HandshakeOf(records[lvidStart..i], procId)
      {
        assert records[lvidStart..i + 1][..i - lvidStart] == records[lvidStart..i];
        var master := records[i].owner;
        if master != procId {
          sends := sends + [Send(master, records[i].gvid)];
        }
      }
      assert records[lvidStart..|records|] == records[lvidStart..];
    }

    /** The handshake receive loop: mirror bits for the vertices this
        machine numbers, the flying vertices for the others. */
    method ReceiveHandshake(inbox: seq<MirrorRecord>) returns (flying: map<VertexId, set<ProcId>>)
      requires Valid() && |records| == lvidStart + |buffer|
      modifies this
      ensures Valid()
      ensures vid2lvid == old(vid2lvid) && buffer == old(buffer)
      ensures Handshake(records, updated, flying)
           == ReceiveAll(old(Tables()), Handshake(old(records), old(updated), map[]), inbox)
      ensures localEdges == old(localEdges) && vertexData == old(vertexData)
    {
      ghost var t0 := Tables();
      ghost var h0 := Handshake(records, updated, map[]);
      GoodBelow(t0);
      flying := map[];
      for i := 0 to |inbox|
        invariant vid2lvid == old(vid2lvid) && buffer == old(buffer)
        invariant |records| == |h0.records| && Below(t0, |records|)
        invariant Handshake(records, updated, flying) == ReceiveAll(t0, h0, inbox[..i])
        invariant forall l :: l in updated ==> l < lvidStart
        invariant localEdges == old(localEdges) && vertexData == old(vertexData)
      {
        assert inbox[..i + 1][..i] == inbox[..i];
        var vid := inbox[i].vid;
        var sender := inbox[i].pid;
        if vid !in vid2lvid {
          if vid !in buffer {
            var mirrors := if vid in flying then flying[vid] else {};
            flying := flying[vid := mirrors + {sender}];
          } else {
            var lvid := buffer[vid];
            records := records[lvid := records[lvid].(mirrors := records[lvid].mirrors + {sender})];
          }
        } else {
          var lvid := vid2lvid[vid];
          records := records[lvid := records[lvid].(mirrors := records[lvid].mirrors + {sender})];
          updated := updated + {lvid};
        }
      }
      assert inbox[..|inbox|] == inbox;
    }

    /** The flying-vertex allocation: walking the flying vertices in the
        given order, each is numbered like any new vertex, continuing from
        the buffer, and gets a record owned by this machine. */
    method AllocateFlying(flying: map<VertexId, set<ProcId>>, order: seq<VertexId>)
      requires lvidStart == |vid2lvid| && |records| == lvidStart + |buffer|
      requires NoDup(order) && forall v :: v in flying <==> v in order
      requires forall v :: v in flying ==> !Tables().Known(v)
      modifies this
      ensures Tables() == ResolveAll(old(Tables()), order)
      ensures records == old(records) + FlyingRecords(order, flying, procId)
      ensures |records| == lvidStart + |buffer|
      ensures localEdges == old(localEdges) && vertexData == old(vertexData)
    {
      NoDupCard(order, flying.Keys);
      assert forall j :: 0 <= j < |order| ==> order[j] in flying && !Tables().Known(order[j]);
      var buf, recs := FlyingAllocation(Tables(), records, flying, order, procId);
      buffer := buf;
      records := recs;
    }

    /** The merge of `finalize`: an empty `vid2lvid` takes the buffer whole;
        otherwise every buffered pair is inserted. Either way `vid2lvid`
        becomes a bijection from the local vertices onto [0, n). */
    method Merge()
      requires Valid()
      modifies this
      ensures vid2lvid == Merged(old(Tables())) && buffer == map[]
      ensures Dense(vid2lvid, 0) && |vid2lvid| == old(|vid2lvid| + |buffer|)
      ensures updated == old(updated) && records == old(records)
      ensures localEdges == old(localEdges) && vertexData == old(vertexData)
    {
      var m := MergeTables(Tables());
      vid2lvid, buffer := m, map[];
    }


    /** `finalize_apply`: the gathered metadata overwrites the edge counts,
        the payload and the mirrors of one local vertex; its global id and
        owner, and every other vertex, stay as they were. */
    method FinalizeApply(lvid: nat, accum: NegotiatorRecord<V>)
      requires lvid < |records|
      modifies this
      ensures |records| == old(|records|)
      ensures records[lvid].gvid == old(records[lvid].gvid) && records[lvid].owner == old(records[lvid].owner)
      ensures records[lvid].numInEdges == accum.numInEdges && records[lvid].numOutEdges == accum.numOutEdges
      ensures records[lvid].mirrors == accum.mirrors
      ensures forall l :: 0 <= l < |records| && l != lvid ==> records[l] == old(records[l])
      ensures vertexData == old(vertexData)[lvid := accum.vdata]
      ensures vid2lvid == old(vid2lvid) && buffer == old(buffer) && updated == old(updated)
      ensures localEdges == old(localEdges)
    {
      var vrec := records[lvid];
      vrec := vrec.(numInEdges := accum.numInEdges, numOutEdges := accum.numOutEdges);
      vertexData := vertexData[lvid := accum.vdata];
      vrec := vrec.(mirrors := accum.mirrors);
      records := records[lvid := vrec];
    }
  }
}
