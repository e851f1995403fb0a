/** Filtering and regrouping of the received edge records before the greedy
    pass: the records that pass the de-duplication filter are bucketed by
    source vertex (`raw_map`) and the buckets are concatenated in the hash
    map's iteration order, which the model takes as a parameter: any
    duplicate-free enumeration of the bucket keys. */
module Regroup {
  import opened Common
  import opened Degrees

  /** The records that pass the filter, in received order. */
  function Kept<E>(recs: seq<EdgeRecord<E>>, deg: map<VertexId, nat>): (k: seq<EdgeRecord<E>>)
    ensures |k| <= |recs|
    ensures forall i :: 0 <= i < |k| ==> Passes(k[i], deg)
  {
    if recs == [] then []
    else
      var last := recs[|recs| - 1];
      Kept(recs[..|recs| - 1], deg) + (if Passes(last, deg) then [last] else [])
  }

  lemma {:induction false} KeptMember<E>(recs: seq<EdgeRecord<E>>, deg: map<VertexId, nat>, r: EdgeRecord<E>)
    ensures r in Kept(recs, deg) <==> r in recs && Passes(r, deg)
  {
    if recs != [] {
      assert recs == recs[..|recs| - 1] + [recs[|recs| - 1]];
      KeptMember(recs[..|recs| - 1], deg, r);
    }
  }

  /** The records with source `v`, in order: the bucket `raw_map[v]`. */
  function WithSource<E>(recs: seq<EdgeRecord<E>>, v: VertexId): (w: seq<EdgeRecord<E>>)
    ensures |w| <= |recs|
    ensures forall i :: 0 <= i < |w| ==> w[i].source == v
  {
    if recs == [] then []
    else
      var last := recs[|recs| - 1];
      WithSource(recs[..|recs| - 1], v) + (if last.source == v then [last] else [])
  }

  lemma {:induction false} WithSourceMember<E>(recs: seq<EdgeRecord<E>>, v: VertexId, r: EdgeRecord<E>)
    ensures r in WithSource(recs, v) <==> r in recs && r.source == v
  {
    if recs != [] {
      assert recs == recs[..|recs| - 1] + [recs[|recs| - 1]];
      WithSourceMember(recs[..|recs| - 1], v, r);
    }
  }

  /** The source vertices of a sequence of records. */
  ghost function Sources<E>(recs: seq<EdgeRecord<E>>): set<VertexId>
  {
    set r | r in recs :: r.source
  }

  /** The set of listed vertex ids. */
  function Keys(order: seq<VertexId>): (ks: set<VertexId>)
    ensures forall v :: v in ks <==> v in order
  {
    if order == [] then {} else Keys(order[..|order| - 1]) + {order[|order| - 1]}
  }

  /** The buckets of `recs`, concatenated in the order `order` lists their keys. */
  function Regrouped<E>(recs: seq<EdgeRecord<E>>, order: seq<VertexId>): seq<EdgeRecord<E>>
  {
    if order == [] then [] else Regrouped(recs, order[..|order| - 1]) + WithSource(recs, order[|order| - 1])
  }

  lemma {:induction false} WithSourceAppend<E>(a: seq<EdgeRecord<E>>, b: seq<EdgeRecord<E>>, v: VertexId)
    ensures WithSource(a + b, v) == WithSource(a, v) + WithSource(b, v)
  {
    if b == [] {
      assert a + b == a;
    } else {
      assert (a + b)[..|a + b| - 1] == a + b[..|b| - 1];
      WithSourceAppend(a, b[..|b| - 1], v);
    }
  }

  lemma {:induction false} WithSourceTwice<E>(recs: seq<EdgeRecord<E>>, u: VertexId, v: VertexId)
    ensures WithSource(WithSource(recs, u), v) == if u == v then WithSource(recs, v) else []
  {
    if recs != [] {
      var pre := recs[..|recs| - 1];
      WithSourceTwice(pre, u, v);
      WithSourceAppend(WithSource(pre, u), if recs[|recs| - 1].source == u then [recs[|recs| - 1]] else [], v);
    }
  }

  /** Every regrouped record has its source among the listed keys. */
  lemma {:induction false} RegroupedSources<E>(recs: seq<EdgeRecord<E>>, order: seq<VertexId>)
    ensures forall r :: r in Regrouped(recs, order) ==> r in recs && r.source in order
  {
    if order != [] {
      var pre, u := order[..|order| - 1], order[|order| - 1];
      RegroupedSources(recs, pre);
      forall r | r in Regrouped(recs, order)
        ensures r in recs && r.source in order
      {
        WithSourceMember(recs, u, r);
        if r in Regrouped(recs, pre) {
          assert r.source in pre;
          var i :| 0 <= i < |pre| && pre[i] == r.source;
          assert order[i] == pre[i];
        }
      }
    }
  }

  /** Regrouping keeps, for every source, exactly its records in their
      original relative order, provided each source is listed once. */
  lemma {:induction false} RegroupedBucket<E>(recs: seq<EdgeRecord<E>>, order: seq<VertexId>, v: VertexId)
    requires NoDup(order)
    ensures WithSource(Regrouped(recs, order), v) == if v in order then WithSource(recs, v) else []
  {
    if order != [] {
      var pre, u := order[..|order| - 1], order[|order| - 1];
      var a, b := Regrouped(recs, pre), WithSource(recs, u);
      assert Regrouped(recs, order) == a + b;
      assert NoDup(pre);
      RegroupedBucket(recs, pre, v);
      WithSourceAppend(a, b, v);
      WithSourceTwice(recs, u, v);
      assert order == pre + [u];
      if v == u {
        assert v !in pre;
        assert WithSource(a, v) == [];
        assert WithSource(a + b, v) == [] + WithSource(recs, v);
      } else {
        assert v in order <==> v in pre;
        assert WithSource(a + b, v) == WithSource(a, v) + [];
      }
    }
  }

  /** The records whose source is in `vs`, in order. */
  function FromSources<E>(recs: seq<EdgeRecord<E>>, vs: set<VertexId>): seq<EdgeRecord<E>>
  {
    if recs == [] then []
    else FromSources(recs[..|recs| - 1], vs) + (if recs[|recs| - 1].source in vs then [recs[|recs| - 1]] else [])
  }

  lemma {:induction false} FromSourcesSplit<E>(recs: seq<EdgeRecord<E>>, vs: set<VertexId>, v: VertexId)
    requires v !in vs
    ensures multiset(FromSources(recs, vs + {v})) == multiset(FromSources(recs, vs)) + multiset(WithSource(recs, v))
  {
    if recs != [] {
      FromSourcesSplit(recs[..|recs| - 1], vs, v);
    }
  }

  lemma {:induction false} FromSourcesAll<E>(recs: seq<EdgeRecord<E>>, vs: set<VertexId>)
    requires forall r :: r in recs ==> r.source in vs
    ensures FromSources(recs, vs) == recs
  {
    if recs != [] {
      var pre := recs[..|recs| - 1];
      assert recs == pre + [recs[|recs| - 1]];
      FromSourcesAll(pre, vs);
    }
  }

  lemma {:induction false} RegroupedMultiset<E>(recs: seq<EdgeRecord<E>>, order: seq<VertexId>)
    requires NoDup(order)
    ensures multiset(Regrouped(recs, order)) == multiset(FromSources(recs, Keys(order)))
  {
    if order == [] {
      FromSourcesNone(recs);
    } else {
      var pre, u := order[..|order| - 1], order[|order| - 1];
      assert NoDup(pre);
      RegroupedMultiset(recs, pre);
      assert u !in pre;
      FromSourcesSplit(recs, Keys(pre), u);
    }
  }

  lemma {:induction false} FromSourcesNone<E>(recs: seq<EdgeRecord<E>>)
    ensures FromSources(recs, {}) == []
  {
    if recs != [] {
      FromSourcesNone(recs[..|recs| - 1]);
    }
  }

  /** With every source listed exactly once, the regrouped sequence is a
      permutation of the input. */
  lemma RegroupedPermutation<E>(recs: seq<EdgeRecord<E>>, order: seq<VertexId>)
    requires NoDup(order)
    requires forall v :: v in order <==> v in Sources(recs)
    ensures multiset(Regrouped(recs, order)) == multiset(recs)
  {
    RegroupedMultiset(recs, order);
    forall r | r in recs
      ensures r.source in Keys(order)
    {
      assert r.source in Sources(recs);
    }
    FromSourcesAll(recs, Keys(order));
  }

  /** Records with equal source form one contiguous block. */
  ghost predicate Contiguous<E>(g: seq<EdgeRecord<E>>)
  {
    forall i, j, k :: 0 <= i < j < k < |g| && g[i].source == g[k].source ==> g[j].source == g[i].source
  }

  /** Records with equal source are contiguous in the regrouped sequence. */
  lemma {:induction false} RegroupedContiguous<E>(recs: seq<EdgeRecord<E>>, order: seq<VertexId>)
    requires NoDup(order)
    ensures Contiguous(Regrouped(recs, order))
  {
    if order != [] {
      var pre, u := order[..|order| - 1], order[|order| - 1];
      assert NoDup(pre);
      assert order == pre + [u];
      RegroupedContiguous(recs, pre);
      RegroupedSources(recs, pre);
      assert u !in pre;
      var p, w := Regrouped(recs, pre), WithSource(recs, u);
      var g := p + w;
      assert Regrouped(recs, order) == g;
      forall i, j, k | 0 <= i < j < k < |g| && g[i].source == g[k].source
        ensures g[j].source == g[i].source
      {
        if k < |p| {
          assert g[i] == p[i] && g[j] == p[j] && g[k] == p[k];
          assert Contiguous(p);
        } else if i >= |p| {
          assert g[i] == w[i - |p|] && g[j] == w[j - |p|];
          assert w[i - |p|].source == u && w[j - |p|].source == u;
        } else {
          assert false;
        }
      }
    }
  }

  /** `raw_map` after filtering the first records: one bucket per source of
      a kept record, holding that source's kept records in order. */
  ghost predicate Buckets<E>(rawMap: map<VertexId, seq<EdgeRecord<E>>>, kept: seq<EdgeRecord<E>>)
  {
    (forall v :: v in rawMap <==> v in Sources(kept))
    && (forall v :: v in rawMap ==> rawMap[v] == WithSource(kept, v))
  }

  lemma BucketsStep<E>(rawMap: map<VertexId, seq<EdgeRecord<E>>>, kept: seq<EdgeRecord<E>>, rec: EdgeRecord<E>)
    requires Buckets(rawMap, kept)
    ensures Buckets(rawMap[rec.source := (if rec.source in rawMap then rawMap[rec.source] else []) + [rec]], kept + [rec])
  {
    var m' := rawMap[rec.source := (if rec.source in rawMap then rawMap[rec.source] else []) + [rec]];
    assert Sources(kept + [rec]) == Sources(kept) + {rec.source};
    forall v | v in m'
      ensures m'[v] == WithSource(kept + [rec], v)
    {
      WithSourceAppend(kept, [rec], v);
      assert [rec][..0] == [];
      if v == rec.source && rec.source !in rawMap {
        assert v !in Sources(kept);
        if WithSource(kept, v) != [] {
          var r := WithSource(kept, v)[0];
          assert r.source == v;
          WithSourceMember(kept, v, r);
          assert false;
        }
      }
    }
  }

  /** The filter-and-rearrange block: bucket the kept records by source, then
      concatenate the buckets in the map's iteration order `order`. The result
      is a permutation of the kept records in which each source's records are
      contiguous and in their received order. */
  method FilterAndRegroup<E>(recv: seq<EdgeRecord<E>>, deg: map<VertexId, nat>, order: seq<VertexId>)
    returns (out: seq<EdgeRecord<E>>)
    requires NoDup(order)
    requires forall v :: v in order <==> v in Sources(Kept(recv, deg))
    ensures out == Regrouped(Kept(recv, deg), order)
    ensures multiset(out) == multiset(Kept(recv, deg))
    ensures forall v :: WithSource(out, v) == WithSource(Kept(recv, deg), v)
    ensures Contiguous(out)
  {
    var rawMap := BucketBySource(recv, deg);
    var kept := Kept(recv, deg);
    out := [];
    for j := 0 to |order|
      invariant out == Regrouped(kept, order[..j])
    {
      assert order[..j + 1][..j] == order[..j];
      assert order[j] in Sources(kept);
      assert rawMap[order[j]] == WithSource(kept, order[j]);
      out := out + rawMap[order[j]];
    }
    assert order[..|order|] == order;
    RegroupedFacts(kept, order);
  }

  /** What regrouping guarantees when every source is listed exactly once. */
  lemma RegroupedFacts<E>(kept: seq<EdgeRecord<E>>, order: seq<VertexId>)
    requires NoDup(order)
    requires forall v :: v in order <==> v in Sources(kept)
    ensures multiset(Regrouped(kept, order)) == multiset(kept)
    ensures forall v :: WithSource(Regrouped(kept, order), v) == WithSource(kept, v)
    ensures Contiguous(Regrouped(kept, order))
  {
    RegroupedPermutation(kept, order);
    forall v
      ensures WithSource(Regrouped(kept, order), v) == WithSource(kept, v)
    {
      RegroupedBucket(kept, order, v);
      if v !in order && WithSource(kept, v) != [] {
        WithSourceMember(kept, v, WithSource(kept, v)[0]);
      }
    }
    RegroupedContiguous(kept, order);
  }

  /** The loop that fills `raw_map`: every kept record is appended to the
      bucket of its source, created empty on first use. */
  method BucketBySource<E>(recv: seq<EdgeRecord<E>>, deg: map<VertexId, nat>)
    returns (rawMap: map<VertexId, seq<EdgeRecord<E>>>)
    ensures Buckets(rawMap, Kept(recv, deg))
  {
    rawMap := map[];
    for i := 0 to |recv|
      invariant Buckets(rawMap, Kept(recv[..i], deg))
    {
      var rec := recv[i];
      assert recv[..i + 1][..i] == recv[..i];
      assert Kept(recv[..i + 1], deg) == Kept(recv[..i], deg) + (if Passes(rec, deg) then [rec] else []);
      if Passes(rec, deg) {
        BucketsStep(rawMap, Kept(recv[..i], deg), rec);
        var bucket := if rec.source in rawMap then rawMap[rec.source] else [];
        rawMap := rawMap[rec.source := bucket + [rec]];
      } else {
        assert Kept(recv[..i + 1], deg) == Kept(recv[..i], deg);
      }
    }
    assert recv[..|recv|] == recv;
  }
}
