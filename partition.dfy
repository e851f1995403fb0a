/** The second half of `finalize` on one machine: the edges assigned to this
    machine become local edges between local ids, the vertex payloads
    received are stored at their local ids, every vertex new to the machine
    gets a record naming its master, the masters learn which machines hold
    mirrors of their vertices (and number the "flying" vertices they had
    never seen), and the buffer of new ids is merged into `vid2lvid`. The
    id resolution used throughout is `LocalIds.Resolve`. */
module Partition {
  import opened Common
  import opened LocalIds

  /** An edge of the local graph, between two local ids. */
  datatype LocalEdge<E> = LocalEdge(source: nat, target: nat, data: E)

  /** `vertex_record`: the global id, the owning (master) machine, the
      machines holding a mirror, and the in- and out-edge counts. */
  datatype VertexRecord = VertexRecord(gvid: VertexId, owner: ProcId, mirrors: set<ProcId>,
                                       numInEdges: nat, numOutEdges: nat)

  /** The record `resize` appends: no mirrors and no edges. Its id and owner
      are always overwritten before they are read. */
  const Blank := VertexRecord(0, 0, {}, 0, 0)

  /** `vertex_negotiator_record`: the metadata gathered for one vertex. */
  datatype NegotiatorRecord<V> = NegotiatorRecord(numInEdges: nat, numOutEdges: nat, vdata: V, mirrors: set<ProcId>)

  // ---------------------------------------------------------------------
  // Edge construction

  /** The vertex ids an edge loop meets, in order: source, then target. */
  function EndpointSeq<E>(recs: seq<EdgeRecord<E>>): (vs: seq<VertexId>)
    ensures |vs| == 2 * |recs|
  {
    if recs == [] then []
    else EndpointSeq(recs[..|recs| - 1]) + [recs[|recs| - 1].source, recs[|recs| - 1].target]
  }

  /** Every endpoint of `recs` has a local id in `ids`. */
  predicate EndsKnown<E>(recs: seq<EdgeRecord<E>>, ids: Ids)
  {
    forall i :: 0 <= i < |recs| ==> ids.Known(recs[i].source) && ids.Known(recs[i].target)
  }

  /** The local edges of `recs`: each between the local ids of its endpoints. */
  function Localize<E>(recs: seq<EdgeRecord<E>>, ids: Ids): (es: seq<LocalEdge<E>>)
    requires EndsKnown(recs, ids)
    ensures |es| == |recs|
  {
    if recs == [] then []
    else
      var r := recs[|recs| - 1];
      Localize(recs[..|recs| - 1], ids) + [LocalEdge(ids.Lookup(r.source), ids.Lookup(r.target), r.data)]
  }

  /** Each local edge joins the local ids of its record's endpoints and
      carries its payload. */
  lemma {:induction false} LocalizeEdges<E>(recs: seq<EdgeRecord<E>>, ids: Ids)
    requires EndsKnown(recs, ids)
    ensures forall i :: 0 <= i < |recs| ==>
      Localize(recs, ids)[i] == LocalEdge(ids.Lookup(recs[i].source), ids.Lookup(recs[i].target), recs[i].data)
  {
    if recs != [] {
      LocalizeEdges(recs[..|recs| - 1], ids);
    }
  }

  /** `ext` keeps every id `ids` has handed out. */
  ghost predicate Extends(ext: Ids, ids: Ids)
  {
    forall u :: ids.Known(u) ==> ext.Known(u) && ext.Lookup(u) == ids.Lookup(u)
  }

  /** Local edges computed earlier stay valid as later vertices are numbered. */
  lemma {:induction false} LocalizeStable<E>(recs: seq<EdgeRecord<E>>, ids: Ids, ext: Ids)
    requires EndsKnown(recs, ids) && Extends(ext, ids)
    ensures EndsKnown(recs, ext)
    ensures Localize(recs, ext) == Localize(recs, ids)
  {
    if recs != [] {
      LocalizeStable(recs[..|recs| - 1], ids, ext);
    }
  }

  /** Resolving the endpoints of one more record resolves its source, then
      its target. */
  lemma ResolveAllEdge<E>(ids: Ids, recs: seq<EdgeRecord<E>>, r: EdgeRecord<E>)
    ensures ResolveAll(ids, EndpointSeq(recs + [r])) == Resolve(Resolve(ResolveAll(ids, EndpointSeq(recs)), r.source), r.target)
  {
    assert (recs + [r])[..|recs|] == recs;
    var vs := EndpointSeq(recs);
    var ws := EndpointSeq(recs + [r]);
    assert ws == vs + [r.source, r.target];
    assert ws[..|ws| - 1] == vs + [r.source];
    assert ws[..|ws| - 1][..|vs|] == vs;
  }

  /** One more edge: resolving its endpoints after those of `pre` and
      appending its local edge gives the tables and edges of `pre + [r]`. */
  lemma EdgeStep<E>(t0: Ids, pre: seq<EdgeRecord<E>>, r: EdgeRecord<E>, t: Ids, t2: Ids)
    requires t == ResolveAll(t0, EndpointSeq(pre)) && EndsKnown(pre, t)
    requires t2 == Resolve(Resolve(t, r.source), r.target)
    ensures t2 == ResolveAll(t0, EndpointSeq(pre + [r]))
    ensures EndsKnown(pre + [r], t2)
    ensures Localize(pre + [r], t2)
         == Localize(pre, t) + [LocalEdge(t2.Lookup(r.source), t2.Lookup(r.target), r.data)]
  {
    var t1 := Resolve(t, r.source);
    ResolveExtends(t, r.source);
    ResolveExtends(t1, r.target);
    assert Extends(t2, t);
    ResolveAllEdge(t0, pre, r);
    LocalizeStable(pre, t, t2);
    assert (pre + [r])[..|pre|] == pre;
  }

  /** Resolving the same vertex twice hands out nothing new the second time. */
  lemma ResolveExtends(ids: Ids, v: VertexId)
    ensures Extends(Resolve(ids, v), ids)
  {
    ResolveKeeps(ids, v);
  }

  // ---------------------------------------------------------------------
  // Vertex data

  /** The vertex ids a vertex-data loop meets, in order. */
  function VidSeq<V>(recs: seq<VertexBufferRecord<V>>): (vs: seq<VertexId>)
    ensures |vs| == |recs|
    ensures forall i :: 0 <= i < |recs| ==> vs[i] == recs[i].vid
  {
    if recs == [] then [] else VidSeq(recs[..|recs| - 1]) + [recs[|recs| - 1].vid]
  }

  /** Every vertex of `recs` has a local id in `ids`. */
  predicate VidsKnown<V>(recs: seq<VertexBufferRecord<V>>, ids: Ids)
  {
    forall i :: 0 <= i < |recs| ==> ids.Known(recs[i].vid)
  }

  /** The payload table after storing `recs` in order at their local ids:
      a later payload for the same vertex replaces an earlier one. */
  function StoreData<V>(data: map<nat, V>, recs: seq<VertexBufferRecord<V>>, ids: Ids): map<nat, V>
    requires VidsKnown(recs, ids)
  {
    if recs == [] then data
    else
      var r := recs[|recs| - 1];
      StoreData(data, recs[..|recs| - 1], ids)[ids.Lookup(r.vid) := r.data]
  }

  /** One more payload: resolving its vertex after those of `pre` and
      storing it gives the tables and payloads of `pre + [r]`. */
  lemma DataStep<V>(t0: Ids, d0: map<nat, V>, pre: seq<VertexBufferRecord<V>>, r: VertexBufferRecord<V>, t: Ids, t2: Ids)
    requires t == ResolveAll(t0, VidSeq(pre)) && VidsKnown(pre, t)
    requires t2 == Resolve(t, r.vid)
    ensures t2 == ResolveAll(t0, VidSeq(pre + [r]))
    ensures VidsKnown(pre + [r], t2)
    ensures StoreData(d0, pre + [r], t2) == StoreData(d0, pre, t)[t2.Lookup(r.vid) := r.data]
  {
    assert VidSeq(pre + [r]) == VidSeq(pre) + [r.vid];
    assert (VidSeq(pre) + [r.vid])[..|pre|] == VidSeq(pre);
    ResolveExtends(t, r.vid);
    StoreDataStable(d0, pre, t, t2);
    assert (pre + [r])[..|pre|] == pre;
  }

  /** Stored payloads stay where they are as later vertices are numbered. */
  lemma {:induction false} StoreDataStable<V>(data: map<nat, V>, recs: seq<VertexBufferRecord<V>>, ids: Ids, ext: Ids)
    requires VidsKnown(recs, ids) && Extends(ext, ids)
    ensures VidsKnown(recs, ext)
    ensures StoreData(data, recs, ext) == StoreData(data, recs, ids)
  {
    if recs != [] {
      StoreDataStable(data, recs[..|recs| - 1], ids, ext);
    }
  }

  /** The last payload received for a vertex is the one stored at its local
      id, and an id no received vertex maps to keeps its old payload. */
  lemma {:induction false} StoreDataLast<V>(data: map<nat, V>, recs: seq<VertexBufferRecord<V>>, ids: Ids, i: nat)
    requires Good(ids) && VidsKnown(recs, ids) && i < |recs|
    requires forall j :: i < j < |recs| ==> recs[j].vid != recs[i].vid
    ensures ids.Lookup(recs[i].vid) in StoreData(data, recs, ids)
    ensures StoreData(data, recs, ids)[ids.Lookup(recs[i].vid)] == recs[i].data
  {
    var last := recs[|recs| - 1];
    if i < |recs| - 1 {
      StoreDataLast(data, recs[..|recs| - 1], ids, i);
      LookupInjective(ids, recs[i].vid, last.vid);
    }
  }

  /** Ids no received vertex maps to keep their old payload. */
  lemma {:induction false} StoreDataElsewhere<V>(data: map<nat, V>, recs: seq<VertexBufferRecord<V>>, ids: Ids, l: nat)
    requires VidsKnown(recs, ids)
    requires forall j :: 0 <= j < |recs| ==> ids.Lookup(recs[j].vid) != l
    ensures l in StoreData(data, recs, ids) <==> l in data
    ensures l in data ==> StoreData(data, recs, ids)[l] == data[l]
  {
    if recs != [] {
      StoreDataElsewhere(data, recs[..|recs| - 1], ids, l);
    }
  }

  /** Distinct known vertices have distinct local ids. */
  lemma LookupInjective(ids: Ids, u: VertexId, v: VertexId)
    requires Good(ids) && ids.Known(u) && ids.Known(v) && u != v
    ensures ids.Lookup(u) != ids.Lookup(v)
  {
  }

  // ---------------------------------------------------------------------
  // Master handshake

  /** The handshake messages for the records `rs`: the global id of every
      vertex owned elsewhere, sent to its owner, in record order. */
  function HandshakeOf(rs: seq<VertexRecord>, self: ProcId): seq<Send<VertexId>>
  {
    if rs == [] then []
    else
      var r := rs[|rs| - 1];
      HandshakeOf(rs[..|rs| - 1], self) + (if r.owner != self then [Send(r.owner, r.gvid)] else [])
  }

  /** A vertex goes to machine `p` exactly when a record names it with
      owner `p`, and `p` is not this machine. */
  lemma {:induction false} HandshakeMember(rs: seq<VertexRecord>, self: ProcId)
    ensures forall s :: s in HandshakeOf(rs, self) <==>
      s.dest != self && exists i :: 0 <= i < |rs| && rs[i].owner == s.dest && rs[i].gvid == s.rec
  {
    if rs != [] {
      var pre := rs[..|rs| - 1];
      HandshakeMember(pre, self);
      forall s: Send<VertexId> | s.dest != self && (exists i :: 0 <= i < |rs| && rs[i].owner == s.dest && rs[i].gvid == s.rec)
        ensures s in HandshakeOf(rs, self)
      {
        var i :| 0 <= i < |rs| && rs[i].owner == s.dest && rs[i].gvid == s.rec;
        if i < |rs| - 1 {
          assert pre[i] == rs[i];
        }
      }
    }
  }

  /** After the owners are assigned, every new record names the vertex whose
      new id it is, with that vertex's master (0 when the master map has no
      entry for it). */
  ghost predicate OwnersAssigned(records: seq<VertexRecord>, buffer: map<VertexId, nat>, lo: nat,
                                 masterMap: map<VertexId, ProcId>)
  {
    && |records| == lo + |buffer|
    && forall v :: v in buffer ==> buffer[v] < |records| && records[buffer[v]].gvid == v
                                   && records[buffer[v]].owner == Get0(masterMap, v)
  }

  /** Read the other way: every new slot is named. The record at each id
      from `lvid_start` on belongs to the vertex the buffer gives that id. */
  lemma NewSlotsNamed(records: seq<VertexRecord>, buffer: map<VertexId, nat>, lo: nat,
                      masterMap: map<VertexId, ProcId>)
    requires Dense(buffer, lo) && OwnersAssigned(records, buffer, lo, masterMap)
    ensures forall l :: lo <= l < |records| ==>
      records[l].gvid in buffer && buffer[records[l].gvid] == l
      && records[l].owner == Get0(masterMap, records[l].gvid)
  {
    forall l | lo <= l < |records|
      ensures records[l].gvid in buffer && buffer[records[l].gvid] == l
    {
      DenseOnto(buffer, lo, l);
    }
  }

  /** The handshake reaches exactly the masters of the new vertices that
      are owned elsewhere, each with its own vertex id. */
  lemma HandshakeReachesMasters(records: seq<VertexRecord>, buffer: map<VertexId, nat>, lo: nat,
                                masterMap: map<VertexId, ProcId>, self: ProcId)
    requires Dense(buffer, lo) && OwnersAssigned(records, buffer, lo, masterMap)
    ensures forall v :: v in buffer ==>
      (Send(Get0(masterMap, v), v) in HandshakeOf(records[lo..], self) <==> Get0(masterMap, v) != self)
    ensures forall s :: s in HandshakeOf(records[lo..], self) ==>
      s.rec in buffer && s.dest == Get0(masterMap, s.rec) && s.dest != self
  {
    var rs := records[lo..];
    HandshakeMember(rs, self);
    NewSlotsNamed(records, buffer, lo, masterMap);
    forall v | v in buffer && Get0(masterMap, v) != self
      ensures Send(Get0(masterMap, v), v) in HandshakeOf(rs, self)
    {
      var i := buffer[v] - lo;
      assert rs[i] == records[buffer[v]];
    }
    forall s | s in HandshakeOf(rs, self)
      ensures s.rec in buffer && s.dest == Get0(masterMap, s.rec)
    {
      var i :| 0 <= i < |rs| && rs[i].owner == s.dest && rs[i].gvid == s.rec;
      assert rs[i] == records[lo + i];
    }
  }

  /** The state the handshake receive loop changes: the records, the
      updated marks, and the flying vertices with their senders. */
  datatype Handshake = Handshake(records: seq<VertexRecord>, updated: set<nat>, flying: map<VertexId, set<ProcId>>)

  /** Every local id the tables hand out indexes one of `n` records. */
  predicate Below(ids: Ids, n: nat)
  {
    (forall v :: v in ids.vid2lvid ==> ids.vid2lvid[v] < n) && (forall v :: v in ids.buffer ==> ids.buffer[v] < n)
  }

  /** Well-formed tables index exactly the records of the local vertices. */
  lemma GoodBelow(ids: Ids)
    requires Good(ids)
    ensures Below(ids, ids.Start() + |ids.buffer|)
  {
  }

  /** The senders of the flying vertex `v`, read with default construction. */
  function Flyers(flying: map<VertexId, set<ProcId>>, v: VertexId): set<ProcId>
  {
    if v in flying then flying[v] else {}
  }

  /** Receiving "machine `m.pid` holds a copy of `m.vid`" at the master: a
      vertex with an old id gets the mirror bit and is marked updated, a
      vertex with a new id gets the mirror bit, and any other vertex becomes
      (or stays) a flying vertex with the sender added. */
  function Receive(ids: Ids, h: Handshake, m: MirrorRecord): (r: Handshake)
    requires Below(ids, |h.records|)
    ensures |r.records| == |h.records|
  {
    if m.vid in ids.vid2lvid then
      var l := ids.vid2lvid[m.vid];
      h.(records := h.records[l := h.records[l].(mirrors := h.records[l].mirrors + {m.pid})],
         updated := h.updated + {l})
    else if m.vid in ids.buffer then
      var l := ids.buffer[m.vid];
      h.(records := h.records[l := h.records[l].(mirrors := h.records[l].mirrors + {m.pid})])
    else
      h.(flying := h.flying[m.vid := Flyers(h.flying, m.vid) + {m.pid}])
  }

  /** Receiving a sequence of handshake messages in order. */
  function ReceiveAll(ids: Ids, h: Handshake, inbox: seq<MirrorRecord>): (r: Handshake)
    requires Below(ids, |h.records|)
    ensures |r.records| == |h.records|
  {
    if inbox == [] then h else Receive(ids, ReceiveAll(ids, h, inbox[..|inbox| - 1]), inbox[|inbox| - 1])
  }

  /** The machines that announced a copy of `v`. */
  function Senders(inbox: seq<MirrorRecord>, v: VertexId): (ps: set<ProcId>)
    ensures forall p :: p in ps <==> MirrorRecord(v, p) in inbox
  {
    if inbox == [] then {}
    else
      var m := inbox[|inbox| - 1];
      Senders(inbox[..|inbox| - 1], v) + (if m.vid == v then {m.pid} else {})
  }

  /** After the handshake, the record of every known vertex has gained
      exactly the machines that announced a copy of it, and nothing else in
      any record changed. */
  lemma ReceiveAllRecords(ids: Ids, h: Handshake, inbox: seq<MirrorRecord>, v: VertexId)
    requires Good(ids) && |h.records| == ids.Start() + |ids.buffer| && ids.Known(v)
    requires Below(ids, |h.records|)
    ensures ids.Lookup(v) < |h.records|
    ensures ReceiveAll(ids, h, inbox).records[ids.Lookup(v)]
         == h.records[ids.Lookup(v)].(mirrors := h.records[ids.Lookup(v)].mirrors + Senders(inbox, v))
  {
    forall u | ids.Known(u) && u != v
      ensures ids.Lookup(u) != ids.Lookup(v)
    {
      LookupInjective(ids, u, v);
    }
    ReceiveAllRecordsOf(ids, h, inbox, v);
  }

  /** `ReceiveAllRecords` for a vertex whose id no other vertex shares. */
  lemma {:induction false} ReceiveAllRecordsOf(ids: Ids, h: Handshake, inbox: seq<MirrorRecord>, v: VertexId)
    requires Below(ids, |h.records|) && ids.Known(v) && ids.Lookup(v) < |h.records|
    requires forall u :: ids.Known(u) && u != v ==> ids.Lookup(u) != ids.Lookup(v)
    ensures ReceiveAll(ids, h, inbox).records[ids.Lookup(v)]
         == h.records[ids.Lookup(v)].(mirrors := h.records[ids.Lookup(v)].mirrors + Senders(inbox, v))
  {
    if inbox != [] {
      var pre, m := inbox[..|inbox| - 1], inbox[|inbox| - 1];
      var l, r := ids.Lookup(v), ReceiveAll(ids, h, pre);
      var sent := if m.vid == v then {m.pid} else {};
      ReceiveAllRecordsOf(ids, h, pre, v);
      ReceiveRecord(ids, r, m, v);
      var old_mirrors := h.records[l].mirrors;
      assert r.records[l] == h.records[l].(mirrors := old_mirrors + Senders(pre, v));
      assert Senders(inbox, v) == Senders(pre, v) + sent;
      assert old_mirrors + Senders(pre, v) + sent == old_mirrors + Senders(inbox, v);
    }
  }

  /** One message adds its sender to the record of its own vertex only. */
  lemma ReceiveRecord(ids: Ids, h: Handshake, m: MirrorRecord, v: VertexId)
    requires Below(ids, |h.records|) && ids.Known(v) && ids.Lookup(v) < |h.records|
    requires ids.Known(m.vid) && m.vid != v ==> ids.Lookup(m.vid) != ids.Lookup(v)
    ensures Receive(ids, h, m).records[ids.Lookup(v)]
         == h.records[ids.Lookup(v)].(mirrors := h.records[ids.Lookup(v)].mirrors + (if m.vid == v then {m.pid} else {}))
  {
  }

  /** The flying vertices are exactly the announced vertices this machine
      has no id for (besides any it started with). */
  lemma {:induction false} ReceiveAllFlyingKeys(ids: Ids, h: Handshake, inbox: seq<MirrorRecord>)
    requires Below(ids, |h.records|)
    ensures forall v :: v in ReceiveAll(ids, h, inbox).flying <==>
      v in h.flying || (!ids.Known(v) && Senders(inbox, v) != {})
  {
    if inbox != [] {
      var pre := inbox[..|inbox| - 1];
      ReceiveAllFlyingKeys(ids, h, pre);
    }
  }

  /** Each flying vertex carries every machine that announced it; a vertex
      with an id gathers no senders there. */
  lemma {:induction false} ReceiveAllFlyers(ids: Ids, h: Handshake, inbox: seq<MirrorRecord>, v: VertexId)
    requires Below(ids, |h.records|)
    ensures Flyers(ReceiveAll(ids, h, inbox).flying, v)
         == if ids.Known(v) then Flyers(h.flying, v) else Flyers(h.flying, v) + Senders(inbox, v)
  {
    if inbox != [] {
      var pre := inbox[..|inbox| - 1];
      ReceiveAllFlyers(ids, h, pre, v);
    }
  }

  /** Only old ids are marked, and exactly those announced. */
  lemma {:induction false} ReceiveAllUpdated(ids: Ids, h: Handshake, inbox: seq<MirrorRecord>)
    requires Below(ids, |h.records|)
    ensures ReceiveAll(ids, h, inbox).updated
         == h.updated + set m | m in inbox && m.vid in ids.vid2lvid :: ids.vid2lvid[m.vid]
  {
    if inbox != [] {
      var pre := inbox[..|inbox| - 1];
      ReceiveAllUpdated(ids, h, pre);
      assert inbox == pre + [inbox[|inbox| - 1]];
    }
  }

  /** The record of a flying vertex: owned by this machine, with the
      machines that announced it as mirrors. */
  function FlyRecord(flying: map<VertexId, set<ProcId>>, self: ProcId, v: VertexId): VertexRecord
  {
    Blank.(owner := self, gvid := v, mirrors := Flyers(flying, v))
  }

  /** The records of the flying vertices, in allocation order. */
  function FlyingRecords(order: seq<VertexId>, flying: map<VertexId, set<ProcId>>, self: ProcId): (rs: seq<VertexRecord>)
    ensures |rs| == |order|
    ensures forall j :: 0 <= j < |order| ==> rs[j] == FlyRecord(flying, self, order[j])
  {
    if order == [] then []
    else FlyingRecords(order[..|order| - 1], flying, self) + [FlyRecord(flying, self, order[|order| - 1])]
  }

  /** Inserting every pair of `pairs` into `m`, as an unordered map's
      `insert` does: a key already present keeps its value, so the pairs
      only fill in the keys `m` lacks. */
  method InsertAll(m: map<VertexId, nat>, pairs: map<VertexId, nat>) returns (r: map<VertexId, nat>)
    ensures r == pairs + m
  {
    r := m;
    var todo := pairs.Keys;
    while todo != {}
      invariant todo <= pairs.Keys
      invariant forall v :: v in r <==> v in m || (v in pairs && v !in todo)
      invariant forall v :: v in r ==> r[v] == if v in m then m[v] else pairs[v]
      decreases |todo|
    {
      var v :| v in todo;
      if v !in r {
        r := r[v := pairs[v]];
      }
      todo := todo - {v};
    }
  }

  /** With disjoint keys, which side of a union wins does not matter. */
  lemma UnionCommutes(a: map<VertexId, nat>, b: map<VertexId, nat>)
    requires a.Keys !! b.Keys
    ensures b + a == a + b
  {
  }

  /** Swapping an empty table with the buffer also yields their union. */
  lemma SwapIsUnion(a: map<VertexId, nat>, b: map<VertexId, nat>)
    requires |a| == 0
    ensures b == a + b
  {
    assert a == map[];
  }

  /** The merge on the tables' values: an empty `vid2lvid` is swapped with
      the buffer, otherwise every buffered pair is inserted into it. Either
      way the result is the union, numbered densely from 0. */
  method MergeTables(ids: Ids) returns (m: map<VertexId, nat>)
    requires Good(ids)
    ensures m == Merged(ids)
    ensures Dense(m, 0) && |m| == ids.Start() + |ids.buffer|
  {
    if |ids.vid2lvid| == 0 {
      m := ids.buffer;
      SwapIsUnion(ids.vid2lvid, ids.buffer);
    } else {
      m := InsertAll(ids.vid2lvid, ids.buffer);
      UnionCommutes(ids.vid2lvid, ids.buffer);
    }
    MergedDense(ids);
  }

  /** The buffer the flying-vertex allocation leaves is the one resolving
      the flying vertices in order: the old entries, then the `j`-th flying
      vertex at `lvid_start + |buffer| + j`. */
  lemma FlyingBuffer(ids: Ids, order: seq<VertexId>, buf: map<VertexId, nat>)
    requires NoDup(order)
    requires forall j :: 0 <= j < |order| ==> !ids.Known(order[j])
    requires forall v :: v in buf <==> v in ids.buffer || v in order
    requires forall v :: v in ids.buffer ==> buf[v] == ids.buffer[v]
    requires forall j :: 0 <= j < |order| ==> buf[order[j]] == ids.Start() + |ids.buffer| + j
    ensures ids.(buffer := buf) == ResolveAll(ids, order)
  {
    var r := ResolveAll(ids, order);
    ResolveAllFresh(ids, order);
    ResolveAllBuffer(ids, order);
    ResolveAllUnknown(ids, order);
    forall v | v in buf
      ensures v in r.buffer && r.buffer[v] == buf[v]
    {
      if v !in ids.buffer {
        var j :| 0 <= j < |order| && order[j] == v;
      }
    }
    assert r.buffer == buf;
  }

  /** The buffer after the first `i` flying vertices are allocated: the old
      entries, the `j`-th flying vertex at `lvid_start + |buffer| + j`, and
      none of the later ones. */
  ghost predicate BufferAt(ids: Ids, order: seq<VertexId>, i: nat, buf: map<VertexId, nat>)
  {
    && i <= |order|
    && |buf| == |ids.buffer| + i
    && (forall v :: v in buf ==> v in ids.buffer || v in order)
    && (forall v :: v in ids.buffer ==> v in buf && buf[v] == ids.buffer[v])
    && (forall j :: 0 <= j < i ==> order[j] in buf && buf[order[j]] == ids.Start() + |ids.buffer| + j)
    && (forall j :: i <= j < |order| ==> order[j] !in buf)
  }

  lemma BufferStep(ids: Ids, order: seq<VertexId>, i: nat, buf: map<VertexId, nat>)
    requires BufferAt(ids, order, i, buf) && i < |order| && NoDup(order)
    ensures BufferAt(ids, order, i + 1, buf[order[i] := ids.Start() + |buf|])
  {
    var x, l := order[i], ids.Start() + |buf|;
    var buf' := buf[x := l];
    assert x !in buf;
    BufferStepKeys(ids, order, buf, x, l);
    BufferStepOrder(order, i, buf, l);
    forall j | 0 <= j < i + 1
      ensures order[j] in buf' && buf'[order[j]] == ids.Start() + |ids.buffer| + j
    {
      if j < i {
        assert buf'[order[j]] == buf[order[j]];
      }
    }
  }

  lemma BufferStepKeys(ids: Ids, order: seq<VertexId>, buf: map<VertexId, nat>, x: VertexId, l: nat)
    requires x !in buf && x in order
    requires forall v :: v in buf ==> v in ids.buffer || v in order
    requires forall v :: v in ids.buffer ==> v in buf && buf[v] == ids.buffer[v]
    ensures |buf[x := l]| == |buf| + 1
    ensures forall v :: v in buf[x := l] ==> v in ids.buffer || v in order
    ensures forall v :: v in ids.buffer ==> v in buf[x := l] && buf[x := l][v] == ids.buffer[v]
  {
  }

  lemma BufferStepOrder(order: seq<VertexId>, i: nat, buf: map<VertexId, nat>, l: nat)
    requires i < |order| && NoDup(order)
    requires forall j :: 0 <= j < i ==> order[j] in buf
    requires forall j :: i <= j < |order| ==> order[j] !in buf
    ensures forall j :: 0 <= j < i ==> buf[order[i] := l][order[j]] == buf[order[j]]
    ensures forall j :: i + 1 <= j < |order| ==> order[j] !in buf[order[i] := l]
  {
  }

  /** The records after the first `i` flying vertices are allocated: the
      old ones, a record for each of those, and blank slots for the rest. */
  ghost predicate RecordsAt(r0: seq<VertexRecord>, order: seq<VertexId>, flying: map<VertexId, set<ProcId>>,
                            self: ProcId, i: nat, recs: seq<VertexRecord>)
  {
    && |recs| == |r0| + |order|
    && (forall k :: 0 <= k < |r0| ==> recs[k] == r0[k])
    && (forall k :: |r0| <= k < |recs| ==> recs[k] == if k < |r0| + i then FlyRecord(flying, self, order[k - |r0|]) else Blank)
  }

  lemma RecordsStep(r0: seq<VertexRecord>, order: seq<VertexId>, flying: map<VertexId, set<ProcId>>,
                    self: ProcId, i: nat, recs: seq<VertexRecord>, l: nat)
    requires RecordsAt(r0, order, flying, self, i, recs) && i < |order| && order[i] in flying
    requires l == |r0| + i
    ensures l < |recs| && recs[l] == Blank
    ensures RecordsAt(r0, order, flying, self, i + 1,
                      recs[l := recs[l].(owner := self, gvid := order[i], mirrors := flying[order[i]])])
  {
    var recs' := recs[l := recs[l].(owner := self, gvid := order[i], mirrors := flying[order[i]])];
    assert Flyers(flying, order[i]) == flying[order[i]];
    assert recs'[l] == FlyRecord(flying, self, order[i]);
  }

  /** The flying-vertex allocation loop on the tables `ids` and the records
      `r0`: the buffer it returns is the one resolving `order` from `ids`,
      and the records gain one record per flying vertex, in order. */
  method FlyingAllocation(ids: Ids, r0: seq<VertexRecord>, flying: map<VertexId, set<ProcId>>,
                          order: seq<VertexId>, self: ProcId)
    returns (buf: map<VertexId, nat>, recs: seq<VertexRecord>)
    requires |r0| == ids.Start() + |ids.buffer|
    requires NoDup(order) && |order| == |flying|
    requires forall j :: 0 <= j < |order| ==> order[j] in flying && !ids.Known(order[j])
    ensures ids.(buffer := buf) == ResolveAll(ids, order)
    ensures |buf| == |ids.buffer| + |order|
    ensures recs == r0 + FlyingRecords(order, flying, self)
  {
    buf := ids.buffer;
    recs := r0 + Blanks(|flying|);
    FlyingStart(ids, r0, order, flying, self);
    for i := 0 to |order|
      invariant BufferAt(ids, order, i, buf)
      invariant RecordsAt(r0, order, flying, self, i, recs)
    {
      var gvid := order[i];
      FlyingStep(ids, r0, order, flying, self, i, buf, recs);
      var lvid := ids.Start() + |buf|;
      recs := recs[lvid := recs[lvid].(owner := self, gvid := gvid, mirrors := flying[gvid])];
      buf := buf[gvid := lvid];
    }
    FlyingDone(ids, r0, order, flying, self, buf, recs);
  }

  lemma FlyingStart(ids: Ids, r0: seq<VertexRecord>, order: seq<VertexId>, flying: map<VertexId, set<ProcId>>, self: ProcId)
    requires |order| == |flying|
    requires forall j :: 0 <= j < |order| ==> !ids.Known(order[j])
    ensures BufferAt(ids, order, 0, ids.buffer)
    ensures RecordsAt(r0, order, flying, self, 0, r0 + Blanks(|flying|))
  {
  }

  lemma FlyingStep(ids: Ids, r0: seq<VertexRecord>, order: seq<VertexId>, flying: map<VertexId, set<ProcId>>,
                   self: ProcId, i: nat, buf: map<VertexId, nat>, recs: seq<VertexRecord>)
    requires |r0| == ids.Start() + |ids.buffer|
    requires BufferAt(ids, order, i, buf) && RecordsAt(r0, order, flying, self, i, recs)
    requires i < |order| && NoDup(order) && order[i] in flying
    ensures ids.Start() + |buf| < |recs|
    ensures BufferAt(ids, order, i + 1, buf[order[i] := ids.Start() + |buf|])
    ensures RecordsAt(r0, order, flying, self, i + 1,
                      recs[ids.Start() + |buf| := recs[ids.Start() + |buf|].(owner := self, gvid := order[i], mirrors := flying[order[i]])])
  {
    BufferStep(ids, order, i, buf);
    RecordsStep(r0, order, flying, self, i, recs, ids.Start() + |buf|);
  }

  lemma FlyingDone(ids: Ids, r0: seq<VertexRecord>, order: seq<VertexId>, flying: map<VertexId, set<ProcId>>,
                   self: ProcId, buf: map<VertexId, nat>, recs: seq<VertexRecord>)
    requires NoDup(order)
    requires forall j :: 0 <= j < |order| ==> !ids.Known(order[j])
    requires BufferAt(ids, order, |order|, buf) && RecordsAt(r0, order, flying, self, |order|, recs)
    ensures ids.(buffer := buf) == ResolveAll(ids, order)
    ensures |buf| == |ids.buffer| + |order|
    ensures recs == r0 + FlyingRecords(order, flying, self)
  {
    FlyingBuffer(ids, order, buf);
    AppendPointwise(recs, r0, FlyingRecords(order, flying, self));
  }


  /** A sequence that starts like `a` and continues like `b` is `a + b`. */
  lemma AppendPointwise<T>(s: seq<T>, a: seq<T>, b: seq<T>)
    requires |s| == |a| + |b|
    requires forall k :: 0 <= k < |a| ==> s[k] == a[k]
    requires forall k :: |a| <= k < |s| ==> s[k] == b[k - |a|]
    ensures s == a + b
  {
  }

  /** `n` default-constructed records, as a `resize` appends. */
  function Blanks(n: nat): (r: seq<VertexRecord>)
    ensures |r| == n && forall j :: 0 <= j < n ==> r[j] == Blank
  {
    if n == 0 then [] else Blanks(n - 1) + [Blank]
  }
}
