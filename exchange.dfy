/** The degree exchange at the start of `finalize`, as one machine runs it:
    count the degree of every endpoint of the received edge records and note,
    per machine, which of this machine's counts must be pushed to it; send
    those counts unrequested; overwrite the local counts with the degrees
    received. The
    specification functions are those of `Degrees`. */
module DegreeExchange {
  import opened Common
  import opened Routing
  import opened Degrees

  /** One more record adds at most one vertex to push: its source for a source-side
      copy, its target for a target-side copy, to the other endpoint's owner. */
  lemma ExchangeSetStep<E>(recs: seq<EdgeRecord<E>>, r: EdgeRecord<E>, q: ProcId, n: nat, h: VertexId -> nat)
    requires n > 0
    ensures ExchangeSet(recs + [r], q, n, h)
         == ExchangeSet(recs, q, n, h)
          + (if r.flag == SourceSide && Owner(r.target, n, h) == q then {r.source}
             else if r.flag == TargetSide && Owner(r.source, n, h) == q then {r.target}
             else {})
  {
  }

  /** `degree` holds the count of every endpoint of `recs`, and nothing else. */
  ghost predicate Counts<E>(degree: map<VertexId, nat>, recs: seq<EdgeRecord<E>>)
  {
    degree.Keys == Endpoints(recs) && forall v :: v in degree ==> degree[v] == DegreeIn(recs, v)
  }

  /** Counting one more record, target first, keeps `Counts`. */
  lemma CountStep<E>(degree: map<VertexId, nat>, recs: seq<EdgeRecord<E>>, r: EdgeRecord<E>)
    requires Counts(degree, recs)
    ensures var d1 := degree[r.target := Get0(degree, r.target) + 1];
      Counts(d1[r.source := Get0(d1, r.source) + 1], recs + [r])
  {
    var d1 := degree[r.target := Get0(degree, r.target) + 1];
    var d2 := d1[r.source := Get0(d1, r.source) + 1];
    assert (recs + [r])[..|recs|] == recs;
    forall v | v in d2
      ensures d2[v] == DegreeIn(recs + [r], v)
    {
      if v !in degree {
        NoEndpointNoDegree(recs, v);
      }
    }
  }

  /** `exchangeSets[q]` is what this machine must push to `q`, for every machine `q`. */
  ghost predicate ExchangeSets<E>(exchangeSets: seq<set<VertexId>>, recs: seq<EdgeRecord<E>>, n: nat, h: VertexId -> nat)
    requires n > 0
  {
    |exchangeSets| == n && forall q :: 0 <= q < n ==> exchangeSets[q] == ExchangeSet(recs, q, n, h)
  }

  /** Noting the push of one more record keeps `ExchangeSets`. */
  lemma ExchangeSetsStep<E>(exchangeSets: seq<set<VertexId>>, recs: seq<EdgeRecord<E>>, r: EdgeRecord<E>,
                           n: nat, h: VertexId -> nat)
    requires n > 0 && ExchangeSets(exchangeSets, recs, n, h)
    ensures ExchangeSets(if r.flag == SourceSide then exchangeSets[h(r.target) % n := exchangeSets[h(r.target) % n] + {r.source}]
                     else if r.flag == TargetSide then exchangeSets[h(r.source) % n := exchangeSets[h(r.source) % n] + {r.target}]
                     else exchangeSets, recs + [r], n, h)
  {
    forall q | 0 <= q < n
      ensures ExchangeSet(recs + [r], q, n, h)
           == ExchangeSet(recs, q, n, h)
            + (if r.flag == SourceSide && Owner(r.target, n, h) == q then {r.source}
               else if r.flag == TargetSide && Owner(r.source, n, h) == q then {r.target}
               else {})
    {
      ExchangeSetStep(recs, r, q, n, h);
    }
  }

  /** The counting loop of `finalize`: the degree table and, per machine
      `q`, the set of vertex ids whose counts this machine pushes to `q`. */
  method CountDegrees<E(==)>(inbox: seq<EdgeRecord<E>>, n: nat, h: VertexId -> nat)
    returns (degree: map<VertexId, nat>, exchangeSets: seq<set<VertexId>>)
    requires n > 0
    ensures degree == CountMap(inbox)
    ensures |exchangeSets| == n
    ensures forall q :: 0 <= q < n ==> exchangeSets[q] == ExchangeSet(inbox, q, n, h)
  {
    degree := map[];
    exchangeSets := NoExchangeSets(n);
    CountingStart(inbox, n, h);
    for i := 0 to |inbox|
      invariant Counts(degree, inbox[..i])
      invariant ExchangeSets(exchangeSets, inbox[..i], n, h)
    {
      var rec := inbox[i];
      assert inbox[..i + 1] == inbox[..i] + [rec];
      CountingStep(inbox[..i], rec, inbox[..i + 1], degree, exchangeSets, n, h);
      degree := degree[rec.target := Get0(degree, rec.target) + 1];
      degree := degree[rec.source := Get0(degree, rec.source) + 1];
      if rec.flag == SourceSide {
        var owner := h(rec.target) % n;
        exchangeSets := exchangeSets[owner := exchangeSets[owner] + {rec.source}];
      } else if rec.flag == TargetSide {
        var owner := h(rec.source) % n;
        exchangeSets := exchangeSets[owner := exchangeSets[owner] + {rec.target}];
      }
    }
    CountingDone(inbox, degree);
  }

  /** `n` empty exchange sets. */
  function NoExchangeSets(n: nat): (r: seq<set<VertexId>>)
    ensures |r| == n && forall q :: 0 <= q < n ==> r[q] == {}
  {
    if n == 0 then [] else NoExchangeSets(n - 1) + [{}]
  }

  lemma CountingStart<E>(inbox: seq<EdgeRecord<E>>, n: nat, h: VertexId -> nat)
    requires n > 0
    ensures Counts(map[], inbox[..0]) && ExchangeSets(NoExchangeSets(n), inbox[..0], n, h)
  {
    assert inbox[..0] == [];
  }

  /** Counting one more record and noting its push keeps both
      invariants. */
  lemma CountingStep<E>(recs: seq<EdgeRecord<E>>, r: EdgeRecord<E>, next: seq<EdgeRecord<E>>,
                        degree: map<VertexId, nat>, exchangeSets: seq<set<VertexId>>, n: nat, h: VertexId -> nat)
    requires n > 0 && next == recs + [r]
    requires Counts(degree, recs) && ExchangeSets(exchangeSets, recs, n, h)
    ensures var d1 := degree[r.target := Get0(degree, r.target) + 1];
      && Counts(d1[r.source := Get0(d1, r.source) + 1], next)
      && ExchangeSets(if r.flag == SourceSide then exchangeSets[h(r.target) % n := exchangeSets[h(r.target) % n] + {r.source}]
                  else if r.flag == TargetSide then exchangeSets[h(r.source) % n := exchangeSets[h(r.source) % n] + {r.target}]
                  else exchangeSets, next, n, h)
  {
    CountStep(degree, recs, r);
    ExchangeSetsStep(exchangeSets, recs, r, n, h);
  }


  lemma CountingDone<E>(inbox: seq<EdgeRecord<E>>, degree: map<VertexId, nat>)
    requires Counts(degree, inbox[..|inbox|])
    ensures degree == CountMap(inbox)
  {
    assert inbox[..|inbox|] == inbox;
  }


  /** A vertex to push is an endpoint of a counted record, so the table
      holds its count over the whole inbox. */
  lemma ExchangedIsCounted<E>(inbox: seq<EdgeRecord<E>>, q: ProcId, n: nat, h: VertexId -> nat, v: VertexId)
    requires n > 0
    requires v in ExchangeSet(inbox, q, n, h)
    ensures v in CountMap(inbox) && CountMap(inbox)[v] == DegreeIn(inbox, v)
  {
  }

  /** The send loop of `finalize`: for every machine `q`, one record per
      vertex id in `q`'s exchange set, carrying this machine's count of it. The
      source walks each bitset in increasing id order; the model fixes no
      order within a machine's exchange set. */
  method SendDegrees(degree: map<VertexId, nat>, exchangeSets: seq<set<VertexId>>)
    returns (sends: seq<Send<DegreeRecord>>)
    ensures forall s :: s in sends <==>
      s.dest < |exchangeSets| && s.rec.vid in exchangeSets[s.dest] && s.rec.degree == Get0(degree, s.rec.vid)
    ensures |sends| == SizeSum(exchangeSets)
  {
    sends := [];
    for q := 0 to |exchangeSets|
      invariant forall s :: s in sends <==>
        s.dest < q && s.rec.vid in exchangeSets[s.dest] && s.rec.degree == Get0(degree, s.rec.vid)
      invariant |sends| == SizeSum(exchangeSets[..q])
    {
      var todo := exchangeSets[q];
      while todo != {}
        invariant todo <= exchangeSets[q]
        invariant forall s :: s in sends <==>
          || (s.dest < q && s.rec.vid in exchangeSets[s.dest] && s.rec.degree == Get0(degree, s.rec.vid))
          || (s.dest == q && s.rec.vid in exchangeSets[q] - todo && s.rec.degree == Get0(degree, s.rec.vid))
        invariant |sends| + |todo| == SizeSum(exchangeSets[..q]) + |exchangeSets[q]|
        decreases |todo|
      {
        var vid :| vid in todo;
        sends := sends + [Send(q, DegreeRecord(vid, Get0(degree, vid)))];
        todo := todo - {vid};
      }
      assert exchangeSets[..q + 1][..q] == exchangeSets[..q];
    }
    assert exchangeSets[..|exchangeSets|] == exchangeSets;
  }

  /** The number of exchangeSets over all machines. */
  function SizeSum(exchangeSets: seq<set<VertexId>>): nat
  {
    if exchangeSets == [] then 0 else SizeSum(exchangeSets[..|exchangeSets| - 1]) + |exchangeSets[|exchangeSets| - 1]|
  }

  /** The receive loop of `finalize`: each received degree overwrites the local count,
      in arrival order. */
  method ApplyReceivedDegrees(degree: map<VertexId, nat>, arrived: seq<DegreeRecord>)
    returns (updated: map<VertexId, nat>)
    ensures updated == Overwrite(degree, arrived)
    ensures updated.Keys == degree.Keys + set r | r in arrived :: r.vid
  {
    updated := degree;
    for i := 0 to |arrived|
      invariant updated == Overwrite(degree, arrived[..i])
      invariant updated.Keys == degree.Keys + set r | r in arrived[..i] :: r.vid
    {
      assert arrived[..i + 1][..i] == arrived[..i];
      updated := updated[arrived[i].vid := arrived[i].degree];
    }
    assert arrived[..|arrived|] == arrived;
  }
}
