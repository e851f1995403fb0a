/** The mirror hash table `mht` of `sync_assign` and the master election of
    `finalize`: for every vertex seen, the set of machines known to hold a
    replica of it, kept as a bitset of machines. Bits are only ever set. */
module Mirrors {
  import opened Common

  /** `mht`: vertex id to the machines holding a replica. */
  type Mht = map<VertexId, set<ProcId>>

  /** The bits of `v`, as read after `mht[v]` default-constructs an empty entry. */
  function Bits(mht: Mht, v: VertexId): (b: set<ProcId>)
    ensures v in mht ==> b == mht[v]
    ensures v !in mht ==> b == {}
  {
    if v in mht then mht[v] else {}
  }

  /** `if (mht.count(v) == 0) mht[v].clear()`: give `v` an entry, leaving
      every existing entry as it was. */
  function Touch(mht: Mht, v: VertexId): (m: Mht)
    ensures m.Keys == mht.Keys + {v}
    ensures forall u :: u in mht ==> m[u] == mht[u]
    ensures m[v] == Bits(mht, v)
  {
    if v in mht then mht else mht[v := {}]
  }

  /** Create the entry of `v` if missing, then set bit `p`. */
  function SetBit(mht: Mht, v: VertexId, p: ProcId): (m: Mht)
    ensures m.Keys == mht.Keys + {v}
    ensures m[v] == Bits(mht, v) + {p}
    ensures forall u :: u in mht && u != v ==> m[u] == mht[u]
  {
    var t := Touch(mht, v);
    t[v := t[v] + {p}]
  }

  /** Draining a batch of received notices, in arrival order. */
  function ApplyNotices(mht: Mht, batch: seq<MirrorRecord>): Mht
  {
    if batch == [] then mht
    else
      var last := batch[|batch| - 1];
      SetBit(ApplyNotices(mht, batch[..|batch| - 1]), last.vid, last.pid)
  }

  /** A drained table holds exactly the old bits plus one bit per notice:
      nothing is cleared and nothing else is set. */
  lemma {:induction false} ApplyNoticesExact(mht: Mht, batch: seq<MirrorRecord>)
    ensures forall v :: v in ApplyNotices(mht, batch) <==> v in mht || exists r :: r in batch && r.vid == v
    ensures forall v, p :: v in ApplyNotices(mht, batch) ==>
      (p in ApplyNotices(mht, batch)[v] <==> p in Bits(mht, v) || MirrorRecord(v, p) in batch)
  {
    if batch != [] {
      var pre := batch[..|batch| - 1];
      var last := batch[|batch| - 1];
      ApplyNoticesExact(mht, pre);
      assert batch == pre + [last];
      forall v | v in ApplyNotices(mht, batch) && v != last.vid
        ensures v in ApplyNotices(mht, pre)
      {
      }
    }
  }

  /** Every entry names at least one machine, and only machines below `n`. */
  ghost predicate WellFormed(mht: Mht, n: nat)
  {
    forall v :: v in mht ==> mht[v] != {} && forall p :: p in mht[v] ==> p < n
  }

  /** Every notice names a machine below `n`. */
  predicate NoticesBelow(batch: seq<MirrorRecord>, n: nat)
  {
    forall i :: 0 <= i < |batch| ==> batch[i].pid < n
  }

  /** Draining notices that name machines below `n` keeps the table well formed. */
  lemma ApplyNoticesWellFormed(mht: Mht, batch: seq<MirrorRecord>, n: nat)
    requires WellFormed(mht, n)
    requires NoticesBelow(batch, n)
    ensures WellFormed(ApplyNotices(mht, batch), n)
  {
    var m := ApplyNotices(mht, batch);
    ApplyNoticesExact(mht, batch);
    forall v | v in m
      ensures m[v] != {} && forall p :: p in m[v] ==> p < n
    {
      if v !in mht {
        var r :| r in batch && r.vid == v;
        assert MirrorRecord(v, r.pid) == r;
        assert r.pid in m[v];
      }
      forall p | p in m[v]
        ensures p < n
      {
        if MirrorRecord(v, p) in batch {
          var i :| 0 <= i < |batch| && batch[i] == MirrorRecord(v, p);
        }
      }
    }
  }

  /** The notices of one broadcast of `rec` over machines below `k`: one to
      every machine other than `self`, in increasing order. */
  function Notices(rec: MirrorRecord, k: nat, self: ProcId): seq<Send<MirrorRecord>>
  {
    if k == 0 then []
    else Notices(rec, k - 1, self) + (if k - 1 == self then [] else [Send(k - 1, rec)])
  }

  /** A broadcast reaches exactly the machines below `k` other than `self`,
      and carries `rec` everywhere. */
  lemma {:induction false} NoticesReachOthers(rec: MirrorRecord, k: nat, self: ProcId)
    ensures forall p: nat :: Send(p, rec) in Notices(rec, k, self) <==> p < k && p != self
    ensures forall s :: s in Notices(rec, k, self) ==> s.rec == rec && s.dest < k && s.dest != self
    ensures |Notices(rec, k, self)| == if self < k then k - 1 else k
  {
    if k > 0 {
      NoticesReachOthers(rec, k - 1, self);
    }
  }

  /** Each machine is notified at most once: destinations increase. */
  lemma {:induction false} NoticesAscending(rec: MirrorRecord, k: nat, self: ProcId)
    ensures forall i, j :: 0 <= i < j < |Notices(rec, k, self)| ==>
      Notices(rec, k, self)[i].dest < Notices(rec, k, self)[j].dest
  {
    if k > 0 {
      NoticesAscending(rec, k - 1, self);
      NoticesReachOthers(rec, k - 1, self);
      var pre := Notices(rec, k - 1, self);
      assert forall i :: 0 <= i < |pre| ==> pre[i] in pre;
    }
  }

  /** `master_candidates`: the machines below `k` whose bit is set, in
      increasing order. */
  function Candidates(bits: set<ProcId>, k: nat): (c: seq<ProcId>)
    ensures forall p: nat :: p in c <==> p < k && p in bits
    ensures forall i, j :: 0 <= i < j < |c| ==> c[i] < c[j]
  {
    if k == 0 then []
    else
      var pre := Candidates(bits, k - 1);
      assert forall i :: 0 <= i < |pre| ==> pre[i] in pre;
      pre + (if k - 1 in bits then [k - 1] else [])
  }

  /** The candidate loop of the election: scan the machines in increasing
      order and collect those whose bit is set. */
  method CollectCandidates(bits: set<ProcId>, n: nat) returns (c: seq<ProcId>)
    ensures c == Candidates(bits, n)
  {
    c := [];
    for idx := 0 to n
      invariant c == Candidates(bits, idx)
    {
      if idx in bits {
        c := c + [idx];
      }
    }
  }

  /** The master of `v`: the candidate at `hash_vertex(v) % |candidates|`.
      The source indexes the candidate list without a check; it is never
      empty because every table entry holds a set bit below `n`. */
  function ElectMaster(v: VertexId, bits: set<ProcId>, n: nat, hashVertex: VertexId -> nat): (m: ProcId)
    requires exists p :: p in bits && p < n
    ensures m in bits && m < n
  {
    var c := Candidates(bits, n);
    var p :| p in bits && p < n;
    assert p in c;
    assert c[hashVertex(v) % |c|] in c;
    c[hashVertex(v) % |c|]
  }

  /** Indexing the collected candidates is the election. */
  lemma ElectFromCandidates(v: VertexId, bits: set<ProcId>, n: nat, hashVertex: VertexId -> nat, c: seq<ProcId>)
    requires exists p :: p in bits && p < n
    requires c == Candidates(bits, n)
    ensures |c| > 0 && c[hashVertex(v) % |c|] == ElectMaster(v, bits, n, hashVertex)
  {
    var p :| p in bits && p < n;
    assert p in c;
  }

  /** A vertex replicated on a single machine has that machine as master. */
  lemma SoleReplicaIsMaster(v: VertexId, p: ProcId, n: nat, hashVertex: VertexId -> nat)
    requires p < n
    ensures ElectMaster(v, {p}, n, hashVertex) == p
  {
    var c := Candidates({p}, n);
    assert p in c;
  }

  /** The election reads only the bits below `n`. */
  lemma ElectionIgnoresHighBits(v: VertexId, bits: set<ProcId>, extra: set<ProcId>, n: nat, hashVertex: VertexId -> nat)
    requires exists p :: p in bits && p < n
    requires forall p :: p in extra ==> p >= n
    ensures ElectMaster(v, bits + extra, n, hashVertex) == ElectMaster(v, bits, n, hashVertex)
  {
    CandidatesIgnoreHighBits(bits, extra, n);
  }

  lemma {:induction false} CandidatesIgnoreHighBits(bits: set<ProcId>, extra: set<ProcId>, k: nat)
    requires forall p :: p in extra ==> p >= k
    ensures Candidates(bits + extra, k) == Candidates(bits, k)
  {
    if k > 0 {
      CandidatesIgnoreHighBits(bits, extra, k - 1);
    }
  }

  /** `master_map` after the election loop over every entry of `mht`. */
  function ElectAll(mht: Mht, n: nat, hashVertex: VertexId -> nat): (masters: map<VertexId, ProcId>)
    requires WellFormed(mht, n)
    ensures masters.Keys == mht.Keys
    ensures forall v :: v in masters ==> masters[v] in mht[v] && masters[v] < n
  {
    map v | v in mht :: (EntryHasCandidate(mht, n, v); ElectMaster(v, mht[v], n, hashVertex))
  }

  /** Every entry of a well-formed table names a machine below `n`. */
  lemma EntryHasCandidate(mht: Mht, n: nat, v: VertexId)
    requires WellFormed(mht, n) && v in mht
    ensures exists p :: p in mht[v] && p < n
  {
    var p :| p in mht[v];
  }

  /** The election of one vertex: collect the machines whose bit is set,
      in increasing order, and pick the one at `hash_vertex(v) % count`. */
  method ElectOne(v: VertexId, bits: set<ProcId>, n: nat, hashVertex: VertexId -> nat) returns (master: ProcId)
    requires exists p :: p in bits && p < n
    ensures master == ElectMaster(v, bits, n, hashVertex)
  {
    var candidates := CollectCandidates(bits, n);
    ElectFromCandidates(v, bits, n, hashVertex, candidates);
    master := candidates[hashVertex(v) % |candidates|];
  }

  /** The master election of `finalize`: every vertex in the mirror table
      gets the master the election picks from its replica bits, whatever
      order the table is walked in. */
  method ElectMasters(mht: Mht, n: nat, hashVertex: VertexId -> nat) returns (masterMap: map<VertexId, ProcId>)
    requires WellFormed(mht, n)
    ensures masterMap.Keys == mht.Keys
    ensures forall v :: v in masterMap ==> masterMap[v] == ElectAll(mht, n, hashVertex)[v]
  {
    masterMap := map[];
    var todo := mht.Keys;
    while todo != {}
      invariant todo <= mht.Keys
      invariant masterMap.Keys == mht.Keys - todo
      invariant forall v :: v in masterMap ==> masterMap[v] == ElectAll(mht, n, hashVertex)[v]
      decreases |todo|
    {
      var v :| v in todo;
      EntryHasCandidate(mht, n, v);
      var master := ElectOne(v, mht[v], n, hashVertex);
      masterMap := masterMap[v := master];
      todo := todo - {v};
    }
  }
}
