/** The specification of `sync_assign`: the machine walks its regrouped edge
    buffer, sends each edge to the machine the greedy assigner picks,
    announces new replicas to every other machine, counts the edge against
    the chosen machine, and drains the announcements it has received every
    `interval` edges (starting with the first) and once more at the end.

    What other machines announce, and when it arrives, is not decided here:
    `arrivals(k)` is the batch drained after edge `k`, `finalArrivals` the
    batch drained after the loop. */
module Assign {
  import opened Common
  import opened Greedy
  import opened Mirrors

  /** An edge assigner: given an edge's endpoints, their mirror bits and the
      per-machine edge counts, the machine the edge goes to. */
  type Chooser = (VertexId, VertexId, set<ProcId>, set<ProcId>, seq<nat>) -> ProcId

  /** The assigner `sync_assign` uses: `edge_to_proc_degree` with the degree
      table and edge hash of this call. */
  function GreedyChooser(deg: map<VertexId, nat>, hashEdge: (VertexId, VertexId) -> nat): Chooser
  {
    (s: VertexId, t: VertexId, ms: set<ProcId>, mt: set<ProcId>, loads: seq<nat>) =>
      if |loads| == 0 then 0 else EdgeToProcDegree(s, t, ms, mt, loads, deg, hashEdge)
  }

  /** The assigner always names one of the machines it is given counts for. */
  ghost predicate InRange(choose: Chooser)
  {
    forall s, t, ms, mt, loads :: |loads| > 0 ==> choose(s, t, ms, mt, loads) < |loads|
  }

  lemma GreedyInRange(deg: map<VertexId, nat>, hashEdge: (VertexId, VertexId) -> nat)
    ensures InRange(GreedyChooser(deg, hashEdge))
  {
  }

  /** What stays fixed during one call: this machine's id, the drain
      interval, the assigner, and the notice arrivals. */
  datatype Config = Config(self: ProcId, interval: nat, choose: Chooser,
                           arrivals: nat -> seq<MirrorRecord>, finalArrivals: seq<MirrorRecord>)
  {
    ghost predicate Valid()
    {
      interval > 0 && InRange(choose)
    }
  }

  /** What `sync_assign` changes: the mirror table, the per-machine edge
      counts `proc_num_edges`, and the edge and mirror outboxes. */
  datatype AssignState<E> = AssignState(mht: Mht, loads: seq<nat>,
                                        edgeSends: seq<Send<EdgeRecord<E>>>,
                                        mirrorSends: seq<Send<MirrorRecord>>)

  /** The table with both endpoints of `rec` given an entry. */
  function Touched<E>(mht: Mht, rec: EdgeRecord<E>): Mht
  {
    Touch(Touch(mht, rec.source), rec.target)
  }

  /** The machine the assigner picks for `rec` in state `st`. */
  function Chosen<E>(c: Config, st: AssignState<E>, rec: EdgeRecord<E>): (best: ProcId)
    requires c.Valid() && |st.loads| > 0
    ensures best < |st.loads|
  {
    var m := Touched(st.mht, rec);
    c.choose(rec.source, rec.target, m[rec.source], m[rec.target], st.loads)
  }

  /** With the greedy assigner, the machine picked is the one
      `edge_to_proc_degree` returns for the edge's touched mirror entries. */
  lemma ChosenIsGreedy<E>(c: Config, deg: map<VertexId, nat>, hashEdge: (VertexId, VertexId) -> nat,
                          st: AssignState<E>, rec: EdgeRecord<E>)
    requires c.interval > 0 && c.choose == GreedyChooser(deg, hashEdge) && |st.loads| > 0
    ensures c.Valid()
    ensures Chosen(c, st, rec) == EdgeToProcDegree(rec.source, rec.target, Bits(st.mht, rec.source),
                                                   Bits(st.mht, rec.target), st.loads, deg, hashEdge)
  {
    GreedyInRange(deg, hashEdge);
  }

  /** The assigner sees the bits of both endpoints as they were before the
      edge, empty for an endpoint not seen yet. */
  lemma ChosenBits<E>(c: Config, st: AssignState<E>, rec: EdgeRecord<E>)
    requires c.Valid() && |st.loads| > 0
    ensures Chosen(c, st, rec) == c.choose(rec.source, rec.target, Bits(st.mht, rec.source), Bits(st.mht, rec.target), st.loads)
  {
  }

  /** Record that machine `best` holds a replica of `v`: nothing when its bit
      is already set; otherwise set the bit here (this machine is one of the
      machines below `|loads|`) and notify every other machine. */
  function Mark<E>(st: AssignState<E>, v: VertexId, best: ProcId, self: ProcId): (r: AssignState<E>)
    requires v in st.mht
    ensures r.mht.Keys == st.mht.Keys && r.loads == st.loads && r.edgeSends == st.edgeSends
    ensures r.mht[v] == st.mht[v] + {best}
    ensures forall u :: u in st.mht && u != v ==> r.mht[u] == st.mht[u]
  {
    if best in st.mht[v] then st
    else st.(mht := st.mht[v := st.mht[v] + {best}],
             mirrorSends := st.mirrorSends + Notices(MirrorRecord(v, best), |st.loads|, self))
  }

  /** What `sync_assign` does for one edge once the machine `best` is
      chosen: give both endpoints an entry, send the edge to `best`, mark
      `best` for the source and then for the target, and count the edge. */
  function Handle<E>(st: AssignState<E>, rec: EdgeRecord<E>, best: ProcId, self: ProcId): (r: AssignState<E>)
    requires best < |st.loads|
    ensures |r.loads| == |st.loads|
  {
    var s1 := st.(mht := Touched(st.mht, rec), edgeSends := st.edgeSends + [Send(best, rec)]);
    var s2 := Mark(s1, rec.source, best, self);
    var s3 := Mark(s2, rec.target, best, self);
    s3.(loads := s3.loads[best := s3.loads[best] + 1])
  }

  /** Everything `sync_assign` does for the edge at position `k`: handle it
      with the greedy choice, then drain if `k` is a multiple of the interval. */
  function Step<E>(c: Config, st: AssignState<E>, rec: EdgeRecord<E>, k: nat): (r: AssignState<E>)
    requires c.Valid() && |st.loads| > 0
    ensures |r.loads| == |st.loads|
  {
    var h := Handle(st, rec, Chosen(c, st, rec), c.self);
    if k % c.interval == 0 then h.(mht := ApplyNotices(h.mht, c.arrivals(k))) else h
  }

  /** The state after the loop has handled `buffer`. */
  function AssignAll<E>(c: Config, st: AssignState<E>, buffer: seq<EdgeRecord<E>>): (r: AssignState<E>)
    requires c.Valid() && |st.loads| > 0
    ensures |r.loads| == |st.loads|
  {
    if buffer == [] then st
    else Step(c, AssignAll(c, st, buffer[..|buffer| - 1]), buffer[|buffer| - 1], |buffer| - 1)
  }

  /** The state after `sync_assign`: the loop, then the final drain. */
  function SyncAssignResult<E>(c: Config, st: AssignState<E>, buffer: seq<EdgeRecord<E>>): (r: AssignState<E>)
    requires c.Valid() && |st.loads| > 0
    ensures |r.loads| == |st.loads|
  {
    var a := AssignAll(c, st, buffer);
    a.(mht := ApplyNotices(a.mht, c.finalArrivals))
  }

  /** Handling an edge adds exactly one to the count of the chosen machine,
      appends exactly one edge send, addressed to it, and touches nothing else
      in the counts or the edge outbox. */
  lemma HandleCounts<E>(st: AssignState<E>, rec: EdgeRecord<E>, best: ProcId, self: ProcId)
    requires best < |st.loads|
    ensures Handle(st, rec, best, self).loads == st.loads[best := st.loads[best] + 1]
    ensures Sum(Handle(st, rec, best, self).loads) == Sum(st.loads) + 1
    ensures Handle(st, rec, best, self).edgeSends == st.edgeSends + [Send(best, rec)]
  {
    SumIncrement(st.loads, best);
  }

  /** After an edge is handled both endpoints' entries hold `best`; every other
      entry is as before, and no bit has been cleared. */
  lemma HandleBits<E>(st: AssignState<E>, rec: EdgeRecord<E>, best: ProcId, self: ProcId)
    requires best < |st.loads|
    ensures var r := Handle(st, rec, best, self);
      && r.mht.Keys == st.mht.Keys + {rec.source, rec.target}
      && best in r.mht[rec.source] && best in r.mht[rec.target]
      && (forall v :: v in st.mht ==> st.mht[v] <= r.mht[v])
      && (forall v :: v in r.mht ==> r.mht[v] <= Bits(st.mht, v) + {best})
  {
  }

  /** The broadcast `Mark` sends: none when `best` is already among `bits`. */
  function NoticesFor(bits: set<ProcId>, v: VertexId, best: ProcId, n: nat, self: ProcId): seq<Send<MirrorRecord>>
  {
    if best in bits then [] else Notices(MirrorRecord(v, best), n, self)
  }

  lemma HandleMirrorSends<E>(st: AssignState<E>, rec: EdgeRecord<E>, best: ProcId, self: ProcId)
    requires best < |st.loads|
    ensures Handle(st, rec, best, self).mirrorSends
         == st.mirrorSends
          + NoticesFor(Bits(st.mht, rec.source), rec.source, best, |st.loads|, self)
          + NoticesFor(if rec.target == rec.source then Bits(st.mht, rec.source) + {best} else Bits(st.mht, rec.target),
                       rec.target, best, |st.loads|, self)
  {
    var s1 := st.(mht := Touched(st.mht, rec), edgeSends := st.edgeSends + [Send(best, rec)]);
    var s2 := Mark(s1, rec.source, best, self);
    assert s2.mht[rec.target] == if rec.target == rec.source then Bits(st.mht, rec.source) + {best} else Bits(st.mht, rec.target);
  }

  /** Handling an edge, field by field: both endpoints get an entry and then
      the bit of `best`, the counts and the edge outbox grow as `HandleCounts`
      says, and each endpoint whose bit was clear is announced. */
  lemma HandleFields<E>(st: AssignState<E>, rec: EdgeRecord<E>, best: ProcId, self: ProcId)
    requires best < |st.loads|
    ensures Handle(st, rec, best, self)
         == AssignState(SetBit(SetBit(Touched(st.mht, rec), rec.source, best), rec.target, best),
                        st.loads[best := st.loads[best] + 1],
                        st.edgeSends + [Send(best, rec)],
                        st.mirrorSends
                        + NoticesFor(Bits(st.mht, rec.source), rec.source, best, |st.loads|, self)
                        + NoticesFor(if rec.target == rec.source then Bits(st.mht, rec.source) + {best}
                                     else Bits(st.mht, rec.target), rec.target, best, |st.loads|, self))
  {
    HandleMirrorSends(st, rec, best, self);
  }

  /** The notices sent for one edge keep the earlier outbox, all go to
      other machines below `|loads|`, and number at most one broadcast per
      endpoint; a self-loop broadcasts at most once. */
  lemma HandleNoticeCount<E>(st: AssignState<E>, rec: EdgeRecord<E>, best: ProcId, self: ProcId)
    requires best < |st.loads| && self < |st.loads|
    ensures var r := Handle(st, rec, best, self);
      var added := r.mirrorSends[|st.mirrorSends|..];
      && |st.mirrorSends| <= |r.mirrorSends|
      && r.mirrorSends[..|st.mirrorSends|] == st.mirrorSends
      && |added| <= 2 * (|st.loads| - 1)
      && (rec.target == rec.source ==> |added| <= |st.loads| - 1)
      && forall s :: s in added ==> s.dest < |st.loads| && s.dest != self
  {
    var n := |st.loads|;
    HandleAdded(st, rec, best, self);
    var a := NoticesFor(Bits(st.mht, rec.source), rec.source, best, n, self);
    var b := NoticesFor(if rec.target == rec.source then Bits(st.mht, rec.source) + {best} else Bits(st.mht, rec.target),
                        rec.target, best, n, self);
    NoticesForBounds(Bits(st.mht, rec.source), rec.source, best, n, self);
    NoticesForBounds(if rec.target == rec.source then Bits(st.mht, rec.source) + {best} else Bits(st.mht, rec.target),
                     rec.target, best, n, self);
    if rec.target == rec.source {
      assert b == [];
    }
  }

  lemma NoticesForBounds(bits: set<ProcId>, v: VertexId, best: ProcId, n: nat, self: ProcId)
    requires self < n
    ensures |NoticesFor(bits, v, best, n, self)| <= n - 1
    ensures forall s :: s in NoticesFor(bits, v, best, n, self) ==> s.dest < n && s.dest != self
  {
    NoticesReachOthers(MirrorRecord(v, best), n, self);
  }

  /** A broadcast of (source, best) reaches every other machine exactly when
      `best` was not yet set for the source, and likewise for a distinct target. */
  lemma HandleNotices<E>(st: AssignState<E>, rec: EdgeRecord<E>, best: ProcId, self: ProcId)
    requires best < |st.loads| && self < |st.loads|
    ensures var added := Handle(st, rec, best, self).mirrorSends[|st.mirrorSends|..];
      && (forall p: nat :: p < |st.loads| && p != self ==>
            (Send(p, MirrorRecord(rec.source, best)) in added <==> best !in Bits(st.mht, rec.source)))
      && (rec.target != rec.source ==> forall p: nat :: p < |st.loads| && p != self ==>
            (Send(p, MirrorRecord(rec.target, best)) in added <==> best !in Bits(st.mht, rec.target)))
  {
    var n := |st.loads|;
    var a := NoticesFor(Bits(st.mht, rec.source), rec.source, best, n, self);
    var b := NoticesFor(if rec.target == rec.source then Bits(st.mht, rec.source) + {best} else Bits(st.mht, rec.target),
                        rec.target, best, n, self);
    HandleAdded(st, rec, best, self);
    NoticesReachOthers(MirrorRecord(rec.source, best), n, self);
    NoticesReachOthers(MirrorRecord(rec.target, best), n, self);
    forall p: nat | p < n && p != self
      ensures Send(p, MirrorRecord(rec.source, best)) in a + b <==> best !in Bits(st.mht, rec.source)
    {
      if rec.target != rec.source {
        assert Send(p, MirrorRecord(rec.source, best)) !in b;
      }
    }
    if rec.target != rec.source {
      forall p: nat | p < n && p != self
        ensures Send(p, MirrorRecord(rec.target, best)) in a + b <==> best !in Bits(st.mht, rec.target)
      {
        assert Send(p, MirrorRecord(rec.target, best)) !in a;
      }
    }
  }

  /** The mirror outbox after handling an edge: the old outbox, then the
      source's broadcast, then the target's. */
  lemma HandleAdded<E>(st: AssignState<E>, rec: EdgeRecord<E>, best: ProcId, self: ProcId)
    requires best < |st.loads|
    ensures var ms := Handle(st, rec, best, self).mirrorSends;
      && |st.mirrorSends| <= |ms|
      && ms[..|st.mirrorSends|] == st.mirrorSends
      && ms[|st.mirrorSends|..]
         == NoticesFor(Bits(st.mht, rec.source), rec.source, best, |st.loads|, self)
          + NoticesFor(if rec.target == rec.source then Bits(st.mht, rec.source) + {best} else Bits(st.mht, rec.target),
                       rec.target, best, |st.loads|, self)
  {
    var a := NoticesFor(Bits(st.mht, rec.source), rec.source, best, |st.loads|, self);
    var b := NoticesFor(if rec.target == rec.source then Bits(st.mht, rec.source) + {best} else Bits(st.mht, rec.target),
                        rec.target, best, |st.loads|, self);
    HandleMirrorSends(st, rec, best, self);
    var ms := Handle(st, rec, best, self).mirrorSends;
    assert ms == st.mirrorSends + (a + b);
  }


  /** The total edge count grows by exactly the number of edges assigned. */
  lemma {:induction false} AssignAllLoads<E>(c: Config, st: AssignState<E>, buffer: seq<EdgeRecord<E>>)
    requires c.Valid() && |st.loads| > 0
    ensures Sum(SyncAssignResult(c, st, buffer).loads) == Sum(st.loads) + |buffer|
    ensures Sum(AssignAll(c, st, buffer).loads) == Sum(st.loads) + |buffer|
  {
    if buffer != [] {
      var pre := buffer[..|buffer| - 1];
      AssignAllLoads(c, st, pre);
      var a := AssignAll(c, st, pre);
      HandleCounts(a, buffer[|buffer| - 1], Chosen(c, a, buffer[|buffer| - 1]), c.self);
    }
  }

  /** Edge `k` goes out once, to the machine chosen for it. */
  lemma StepEdgeSends<E>(c: Config, st: AssignState<E>, rec: EdgeRecord<E>, k: nat)
    requires c.Valid() && |st.loads| > 0
    ensures Step(c, st, rec, k).edgeSends == st.edgeSends + [Send(Chosen(c, st, rec), rec)]
  {
    HandleCounts(st, rec, Chosen(c, st, rec), c.self);
  }

  /** The edge outbox gains one send per buffered edge and keeps what it held. */
  lemma {:induction false} AssignAllEdgePrefix<E>(c: Config, st: AssignState<E>, buffer: seq<EdgeRecord<E>>)
    requires c.Valid() && |st.loads| > 0
    ensures |AssignAll(c, st, buffer).edgeSends| == |st.edgeSends| + |buffer|
    ensures AssignAll(c, st, buffer).edgeSends[..|st.edgeSends|] == st.edgeSends
  {
    if buffer != [] {
      var pre := buffer[..|buffer| - 1];
      var last := buffer[|buffer| - 1];
      AssignAllEdgePrefix(c, st, pre);
      var a := AssignAll(c, st, pre);
      StepEdgeSends(c, a, last, |buffer| - 1);
      assert AssignAll(c, st, buffer).edgeSends[..|st.edgeSends|] == a.edgeSends[..|st.edgeSends|];
    }
  }

  /** The sends the buffer adds carry the buffered edges in order, each
      addressed to a machine below `|loads|`. */
  lemma {:induction false} AssignAllEdgeSends<E>(c: Config, st: AssignState<E>, buffer: seq<EdgeRecord<E>>)
    requires c.Valid() && |st.loads| > 0
    ensures |AssignAll(c, st, buffer).edgeSends| == |st.edgeSends| + |buffer|
    ensures CarriesInOrder(AssignAll(c, st, buffer).edgeSends[|st.edgeSends|..], buffer, |st.loads|)
  {
    AssignAllEdgePrefix(c, st, buffer);
    if buffer != [] {
      var pre := buffer[..|buffer| - 1];
      var last := buffer[|buffer| - 1];
      AssignAllEdgeSends(c, st, pre);
      AssignAllEdgePrefix(c, st, pre);
      var a := AssignAll(c, st, pre);
      StepEdgeSends(c, a, last, |buffer| - 1);
      var x := Send(Chosen(c, a, last), last);
      assert AssignAll(c, st, buffer).edgeSends == a.edgeSends + [x];
      SliceAppend(a.edgeSends, x, |st.edgeSends|);
      CarriesInOrderAppend(a.edgeSends[|st.edgeSends|..], pre, x, |st.loads|);
      assert pre + [last] == buffer;
    }
  }

  /** The sends carry the records of `recs` in order, to machines below `n`. */
  ghost predicate CarriesInOrder<E>(sends: seq<Send<EdgeRecord<E>>>, recs: seq<EdgeRecord<E>>, n: nat)
  {
    |sends| == |recs| && forall k :: 0 <= k < |recs| ==> sends[k].rec == recs[k] && sends[k].dest < n
  }

  lemma SliceAppend<T>(s: seq<T>, x: T, from: nat)
    requires from <= |s|
    ensures (s + [x])[from..] == s[from..] + [x]
  {
  }

  lemma CarriesInOrderAppend<E>(sends: seq<Send<EdgeRecord<E>>>, recs: seq<EdgeRecord<E>>, x: Send<EdgeRecord<E>>, n: nat)
    requires CarriesInOrder(sends, recs, n) && x.dest < n
    ensures CarriesInOrder(sends + [x], recs + [x.rec], n)
  {
  }

  /** After edge `k` both endpoints' entries hold the chosen machine, no bit
      set before has been cleared, and received notices were drained exactly
      when `k` is a multiple of the interval (so after the very first edge). */
  lemma StepBits<E>(c: Config, st: AssignState<E>, rec: EdgeRecord<E>, k: nat)
    requires c.Valid() && |st.loads| > 0
    ensures var r := Step(c, st, rec, k);
      && rec.source in r.mht && Chosen(c, st, rec) in r.mht[rec.source]
      && rec.target in r.mht && Chosen(c, st, rec) in r.mht[rec.target]
      && (forall v :: v in st.mht ==> v in r.mht && st.mht[v] <= r.mht[v])
      && (k % c.interval == 0 ==> forall m :: m in c.arrivals(k) ==> m.vid in r.mht && m.pid in r.mht[m.vid])
      && (k % c.interval != 0 ==> r.mht.Keys == st.mht.Keys + {rec.source, rec.target})
  {
    var best := Chosen(c, st, rec);
    var h := Handle(st, rec, best, c.self);
    HandleBits(st, rec, best, c.self);
    if k % c.interval == 0 {
      ApplyNoticesExact(h.mht, c.arrivals(k));
      forall m | m in c.arrivals(k)
        ensures MirrorRecord(m.vid, m.pid) in c.arrivals(k)
      {
        assert MirrorRecord(m.vid, m.pid) == m;
      }
    }
  }

  /** Bits are only ever set: every entry of the old table survives the whole
      call with at least its old bits. */
  lemma {:induction false} AssignAllMonotone<E>(c: Config, st: AssignState<E>, buffer: seq<EdgeRecord<E>>)
    requires c.Valid() && |st.loads| > 0
    ensures var r := AssignAll(c, st, buffer);
      forall v :: v in st.mht ==> v in r.mht && st.mht[v] <= r.mht[v]
  {
    if buffer != [] {
      var pre := buffer[..|buffer| - 1];
      AssignAllMonotone(c, st, pre);
      StepBits(c, AssignAll(c, st, pre), buffer[|buffer| - 1], |buffer| - 1);
    }
  }

  /** Every entry of `m1` is in `m2` with at least the same bits. */
  ghost predicate Below(m1: Mht, m2: Mht)
  {
    forall v :: v in m1 ==> v in m2 && m1[v] <= m2[v]
  }

  /** The table only grows along the loop: the state after any prefix of
      the buffer is below the state after the whole buffer. */
  lemma {:induction false} AssignAllPrefixBelow<E>(c: Config, st: AssignState<E>, buffer: seq<EdgeRecord<E>>, j: nat)
    requires c.Valid() && |st.loads| > 0
    requires j <= |buffer|
    ensures Below(AssignAll(c, st, buffer[..j]).mht, AssignAll(c, st, buffer).mht)
    decreases |buffer| - j
  {
    if j < |buffer| {
      AssignAllPrefixBelow(c, st, buffer, j + 1);
      var next := buffer[..j + 1];
      PrefixOfPrefix(buffer, j + 1, j);
      AssignAllLastBelow(c, st, next);
      BelowTransitive(AssignAll(c, st, buffer[..j]).mht, AssignAll(c, st, next).mht, AssignAll(c, st, buffer).mht);
    } else {
      assert buffer[..j] == buffer;
    }
  }

  /** Handling the last buffered edge only adds entries and bits. */
  lemma AssignAllLastBelow<E>(c: Config, st: AssignState<E>, buffer: seq<EdgeRecord<E>>)
    requires c.Valid() && |st.loads| > 0
    requires buffer != []
    ensures Below(AssignAll(c, st, buffer[..|buffer| - 1]).mht, AssignAll(c, st, buffer).mht)
  {
    StepBits(c, AssignAll(c, st, buffer[..|buffer| - 1]), buffer[|buffer| - 1], |buffer| - 1);
  }

  lemma BelowTransitive(m1: Mht, m2: Mht, m3: Mht)
    requires Below(m1, m2) && Below(m2, m3)
    ensures Below(m1, m3)
  {
  }

  /** Every edge's chosen machine is recorded for both of its endpoints by
      the end of the call. */
  lemma AssignAllRecordsReplicas<E>(c: Config, st: AssignState<E>, buffer: seq<EdgeRecord<E>>, k: nat)
    requires c.Valid() && |st.loads| > 0
    requires k < |buffer|
    ensures var r := SyncAssignResult(c, st, buffer);
      var best := Chosen(c, AssignAll(c, st, buffer[..k]), buffer[k]);
      && buffer[k].source in r.mht && best in r.mht[buffer[k].source]
      && buffer[k].target in r.mht && best in r.mht[buffer[k].target]
  {
    var before := AssignAll(c, st, buffer[..k]);
    var best := Chosen(c, before, buffer[k]);
    assert buffer[..k + 1][..k] == buffer[..k];
    assert AssignAll(c, st, buffer[..k + 1]) == Step(c, before, buffer[k], k);
    StepBits(c, before, buffer[k], k);
    AssignAllPrefixBelow(c, st, buffer, k + 1);
    ApplyNoticesExact(AssignAll(c, st, buffer).mht, c.finalArrivals);
  }

  /** The notices sent for edge `k` are those of handling it with the greedy
      choice; see `HandleNotices`. */
  lemma StepNotices<E>(c: Config, st: AssignState<E>, rec: EdgeRecord<E>, k: nat)
    requires c.Valid() && |st.loads| > 0
    requires c.self < |st.loads|
    ensures var r := Step(c, st, rec, k);
      var best := Chosen(c, st, rec);
      var added := r.mirrorSends[|st.mirrorSends|..];
      && r.mirrorSends[..|st.mirrorSends|] == st.mirrorSends
      && (forall p: nat :: p < |st.loads| && p != c.self ==>
            (Send(p, MirrorRecord(rec.source, best)) in added <==> best !in Bits(st.mht, rec.source)))
      && (rec.target == rec.source ==> |added| <= |st.loads| - 1)
  {
    HandleNotices(st, rec, Chosen(c, st, rec), c.self);
    HandleNoticeCount(st, rec, Chosen(c, st, rec), c.self);
  }

  /** Handling an edge keeps the table well formed: every entry it creates
      gets the chosen machine's bit at once. */
  lemma HandleWellFormed<E>(st: AssignState<E>, rec: EdgeRecord<E>, best: ProcId, self: ProcId)
    requires best < |st.loads|
    requires WellFormed(st.mht, |st.loads|)
    ensures WellFormed(Handle(st, rec, best, self).mht, |st.loads|)
  {
    var m := Handle(st, rec, best, self).mht;
    HandleBits(st, rec, best, self);
    forall v | v in m
      ensures m[v] != {} && forall p :: p in m[v] ==> p < |st.loads|
    {
      if v != rec.source && v != rec.target {
        assert st.mht[v] <= m[v];
      }
      assert m[v] <= Bits(st.mht, v) + {best};
    }
  }

  /** A well-formed table stays well formed: handling keeps it so, and every
      drained notice names a machine below `|loads|`. */
  lemma StepWellFormed<E>(c: Config, st: AssignState<E>, rec: EdgeRecord<E>, k: nat)
    requires c.Valid() && |st.loads| > 0
    requires WellFormed(st.mht, |st.loads|)
    requires NoticesBelow(c.arrivals(k), |st.loads|)
    ensures WellFormed(Step(c, st, rec, k).mht, |st.loads|)
  {
    var n := |st.loads|;
    var best := Chosen(c, st, rec);
    var h := Handle(st, rec, best, c.self);
    HandleWellFormed(st, rec, best, c.self);
    if k % c.interval == 0 {
      ApplyNoticesWellFormed(h.mht, c.arrivals(k), n);
    }
  }

  /** The whole call keeps the table well formed, so every entry has a
      master candidate afterwards. */
  lemma {:induction false} SyncAssignWellFormed<E>(c: Config, st: AssignState<E>, buffer: seq<EdgeRecord<E>>)
    requires c.Valid() && |st.loads| > 0
    requires WellFormed(st.mht, |st.loads|)
    requires forall k :: NoticesBelow(c.arrivals(k), |st.loads|)
    requires NoticesBelow(c.finalArrivals, |st.loads|)
    ensures WellFormed(AssignAll(c, st, buffer).mht, |st.loads|)
    ensures WellFormed(SyncAssignResult(c, st, buffer).mht, |st.loads|)
  {
    if buffer != [] {
      var pre := buffer[..|buffer| - 1];
      SyncAssignWellFormed(c, st, pre);
      StepWellFormed(c, AssignAll(c, st, pre), buffer[|buffer| - 1], |buffer| - 1);
    }
    ApplyNoticesWellFormed(AssignAll(c, st, buffer).mht, c.finalArrivals, |st.loads|);
  }
}
