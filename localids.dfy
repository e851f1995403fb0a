/** The local-id tables of one `finalize` call on one machine: the graph's
    `vid2lvid` as it was on entry (its size is `lvid_start`), the
    `vid2lvid_buffer` that numbers the vertices new to this machine, and the
    `updated_lvids` marks of pre-existing local ids. Every phase that meets
    a vertex id (edge construction, vertex data, flying vertices) resolves
    it the same way, which `Resolve` states once. */
module LocalIds {
  import opened Common

  /** The three tables, as one value. */
  datatype Ids = Ids(vid2lvid: map<VertexId, nat>, buffer: map<VertexId, nat>, updated: set<nat>)
  {
    /** `lvid_start`: the number of local vertices on entry. */
    function Start(): nat
    {
      |vid2lvid|
    }

    /** The vertex already has a local id, old or new. */
    predicate Known(v: VertexId)
    {
      v in vid2lvid || v in buffer
    }

    /** The local id of a known vertex, in whichever table holds it. */
    function Lookup(v: VertexId): nat
      requires Known(v)
    {
      if v in vid2lvid then vid2lvid[v] else buffer[v]
    }
  }

  /** `m` numbers its keys with distinct ids from [lo, lo + |m|); as many
      ids as keys, so it uses every id of the range (`DenseValues`). */
  ghost predicate Dense(m: map<VertexId, nat>, lo: nat)
  {
    (forall v :: v in m ==> lo <= m[v] < lo + |m|) && Injective(m)
  }

  /** The invariant of the tables during `finalize`: the old table is dense
      from 0, the buffer continues it densely from `lvid_start`, no vertex is
      in both, and only pre-existing ids are marked updated. */
  ghost predicate Good(ids: Ids)
  {
    && Dense(ids.vid2lvid, 0)
    && Dense(ids.buffer, ids.Start())
    && ids.vid2lvid.Keys !! ids.buffer.Keys
    && forall i :: i in ids.updated ==> i < ids.Start()
  }

  /** An injective map has as many distinct values as keys. */
  lemma {:induction false} InjectiveCard(m: map<VertexId, nat>)
    requires Injective(m)
    ensures |m.Values| == |m|
    decreases |m|
  {
    if |m| == 0 {
      assert m.Values == {};
    } else {
      var k :| k in m;
      var r := m - {k};
      assert r.Keys == m.Keys - {k};
      InjectiveCard(r);
      forall y | y in m.Values
        ensures y in r.Values + {m[k]}
      {
        var u :| u in m && m[u] == y;
        if u != k {
          assert r[u] == y;
        }
      }
      forall y | y in r.Values + {m[k]}
        ensures y in m.Values
      {
        if y in r.Values {
          var u :| u in r && r[u] == y;
          assert m[u] == y;
        } else {
          assert m[k] == y;
        }
      }
      assert m[k] !in r.Values;
      assert m.Values == r.Values + {m[k]};
    }
  }

  /** A subset as large as its superset is the superset. */
  lemma SubsetSameSize(a: set<nat>, b: set<nat>)
    requires a <= b && |a| == |b|
    ensures a == b
  {
    assert b == a + (b - a);
    assert a * (b - a) == {};
    assert |b - a| == 0;
  }

  /** A dense table uses exactly the ids of its range. */
  lemma DenseValues(m: map<VertexId, nat>, lo: nat)
    requires Dense(m, lo)
    ensures m.Values == Range(lo, lo + |m|)
  {
    InjectiveCard(m);
    RangeSize(lo, lo + |m|);
    forall y | y in m.Values
      ensures y in Range(lo, lo + |m|)
    {
      var u :| u in m && m[u] == y;
    }
    SubsetSameSize(m.Values, Range(lo, lo + |m|));
  }

  /** Every id of the range of a dense table is used by some key. */
  lemma DenseOnto(m: map<VertexId, nat>, lo: nat, l: nat)
    requires Dense(m, lo) && lo <= l < lo + |m|
    ensures exists v :: v in m && m[v] == l
  {
    DenseValues(m, lo);
    assert l in m.Values;
  }

  /** Numbering one more vertex with the next id keeps a table dense. */
  lemma DenseExtend(m: map<VertexId, nat>, lo: nat, v: VertexId)
    requires Dense(m, lo) && v !in m
    ensures |m[v := lo + |m|]| == |m| + 1
    ensures Dense(m[v := lo + |m|], lo)
  {
  }

  /** How `finalize` resolves one vertex id: a vertex of the old table keeps
      its id and is marked updated; a vertex already in the buffer keeps its
      buffered id; any other vertex is numbered `lvid_start + |buffer|`. */
  function Resolve(ids: Ids, v: VertexId): (r: Ids)
    ensures r.vid2lvid == ids.vid2lvid
    ensures r.Known(v)
  {
    if v in ids.vid2lvid then ids.(updated := ids.updated + {ids.vid2lvid[v]})
    else if v in ids.buffer then ids
    else ids.(buffer := ids.buffer[v := ids.Start() + |ids.buffer|])
  }

  /** The id `Resolve` hands out: the existing one, or the next free one. */
  lemma ResolveLookup(ids: Ids, v: VertexId)
    ensures Resolve(ids, v).Lookup(v) == if ids.Known(v) then ids.Lookup(v) else ids.Start() + |ids.buffer|
  {
  }

  /** A vertex new to both tables joins the buffer with the next free id. */
  lemma ResolveFresh(ids: Ids, buf: map<VertexId, nat>, v: VertexId)
    requires v !in ids.vid2lvid && v !in buf
    ensures Resolve(ids.(buffer := buf), v) == ids.(buffer := buf[v := ids.Start() + |buf|])
  {
  }

  /** Marking an old id keeps the invariant of the tables. */
  lemma GoodMark(ids: Ids, l: nat)
    requires Good(ids) && l < ids.Start()
    ensures Good(ids.(updated := ids.updated + {l}))
  {
    var r := ids.(updated := ids.updated + {l});
    assert r.vid2lvid == ids.vid2lvid && r.buffer == ids.buffer;
  }

  /** Numbering a vertex new to both tables keeps their invariant. */
  lemma GoodExtend(ids: Ids, v: VertexId)
    requires Good(ids) && !ids.Known(v)
    ensures Good(ids.(buffer := ids.buffer[v := ids.Start() + |ids.buffer|]))
  {
    var b := ids.buffer[v := ids.Start() + |ids.buffer|];
    var r := ids.(buffer := b);
    DenseExtend(ids.buffer, ids.Start(), v);
    assert r.vid2lvid == ids.vid2lvid && r.updated == ids.updated && r.Start() == ids.Start();
    assert Dense(r.buffer, r.Start());
    assert r.vid2lvid.Keys !! r.buffer.Keys;
  }

  /** Resolving keeps the invariant of the tables. */
  lemma ResolveGood(ids: Ids, v: VertexId)
    requires Good(ids)
    ensures Good(Resolve(ids, v))
  {
    if v in ids.vid2lvid {
      GoodMark(ids, ids.vid2lvid[v]);
      assert Resolve(ids, v) == ids.(updated := ids.updated + {ids.vid2lvid[v]});
    } else if v !in ids.buffer {
      GoodExtend(ids, v);
      assert Resolve(ids, v) == ids.(buffer := ids.buffer[v := ids.Start() + |ids.buffer|]);
    } else {
      assert Resolve(ids, v) == ids;
    }
  }

  /** Resolving never changes an id already handed out, and adds no vertex
      other than `v`. */
  lemma ResolveKeeps(ids: Ids, v: VertexId)
    ensures forall u :: Resolve(ids, v).Known(u) <==> ids.Known(u) || u == v
    ensures forall u :: ids.Known(u) ==> Resolve(ids, v).Lookup(u) == ids.Lookup(u)
  {
  }

  /** Resolving a sequence of vertex ids in order. */
  function ResolveAll(ids: Ids, vs: seq<VertexId>): (r: Ids)
    ensures r.vid2lvid == ids.vid2lvid
  {
    if vs == [] then ids else Resolve(ResolveAll(ids, vs[..|vs| - 1]), vs[|vs| - 1])
  }

  /** Resolving a sequence keeps the invariant of the tables. */
  lemma {:induction false} ResolveAllGood(ids: Ids, vs: seq<VertexId>)
    requires Good(ids)
    ensures Good(ResolveAll(ids, vs))
  {
    if vs != [] {
      ResolveAllGood(ids, vs[..|vs| - 1]);
      ResolveGood(ResolveAll(ids, vs[..|vs| - 1]), vs[|vs| - 1]);
    }
  }

  /** After resolving a sequence, the known vertices are exactly the old ones
      and those of the sequence, and every id handed out before is kept. */
  lemma {:induction false} ResolveAllKeeps(ids: Ids, vs: seq<VertexId>)
    ensures forall u :: ResolveAll(ids, vs).Known(u) <==> ids.Known(u) || u in vs
    ensures forall u :: ids.Known(u) ==> ResolveAll(ids, vs).Lookup(u) == ids.Lookup(u)
  {
    if vs != [] {
      var pre := vs[..|vs| - 1];
      ResolveAllKeeps(ids, pre);
      ResolveKeeps(ResolveAll(ids, pre), vs[|vs| - 1]);
      assert vs == pre + [vs[|vs| - 1]];
    }
  }

  /** Exactly the old ids of the vertices met are marked updated. */
  lemma {:induction false} ResolveAllUpdated(ids: Ids, vs: seq<VertexId>)
    ensures ResolveAll(ids, vs).updated
         == ids.updated + set v | v in vs && v in ids.vid2lvid :: ids.vid2lvid[v]
  {
    if vs != [] {
      var pre := vs[..|vs| - 1];
      ResolveAllUpdated(ids, pre);
      assert vs == pre + [vs[|vs| - 1]];
    }
  }

  /** Resolving never moves a buffered vertex, and buffers exactly the
      vertices met that the old table lacks. */
  lemma {:induction false} ResolveAllBuffer(ids: Ids, vs: seq<VertexId>)
    ensures forall u :: u in ResolveAll(ids, vs).buffer <==> u in ids.buffer || (u in vs && u !in ids.vid2lvid)
    ensures forall u :: u in ids.buffer ==> ResolveAll(ids, vs).buffer[u] == ids.buffer[u]
  {
    if vs != [] {
      var pre := vs[..|vs| - 1];
      ResolveAllBuffer(ids, pre);
      assert vs == pre + [vs[|vs| - 1]];
    }
  }

  /** Resolving only vertices new to both tables marks nothing updated. */
  lemma {:induction false} ResolveAllUnknown(ids: Ids, vs: seq<VertexId>)
    requires forall j :: 0 <= j < |vs| ==> vs[j] !in ids.vid2lvid
    ensures ResolveAll(ids, vs).updated == ids.updated
  {
    if vs != [] {
      ResolveAllUnknown(ids, vs[..|vs| - 1]);
    }
  }

  /** Vertices new to both tables, met once each, continue the numbering:
      the `i`-th gets `lvid_start + |buffer| + i`. This is how the flying
      vertices of the master handshake are numbered. */
  lemma {:induction false} ResolveAllFresh(ids: Ids, vs: seq<VertexId>)
    requires NoDup(vs)
    requires forall i :: 0 <= i < |vs| ==> !ids.Known(vs[i])
    ensures |ResolveAll(ids, vs).buffer| == |ids.buffer| + |vs|
    ensures forall i :: 0 <= i < |vs| ==>
      vs[i] in ResolveAll(ids, vs).buffer && ResolveAll(ids, vs).buffer[vs[i]] == ids.Start() + |ids.buffer| + i
  {
    if vs != [] {
      var pre := vs[..|vs| - 1];
      var last := vs[|vs| - 1];
      ResolveAllFresh(ids, pre);
      ResolveAllKeeps(ids, pre);
      assert last !in pre;
      var r := ResolveAll(ids, pre);
      assert !r.Known(last);
      forall i | 0 <= i < |vs|
        ensures vs[i] in ResolveAll(ids, vs).buffer && ResolveAll(ids, vs).buffer[vs[i]] == ids.Start() + |ids.buffer| + i
      {
        if i < |vs| - 1 {
          assert vs[i] == pre[i];
        }
      }
    }
  }

  /** The merge at the end of `finalize`: the buffer joins the old table. */
  function Merged(ids: Ids): map<VertexId, nat>
  {
    ids.vid2lvid + ids.buffer
  }

  /** After the merge, `vid2lvid` numbers every known vertex with the id it
      was handed, and is a bijection onto [0, n) for n the number of local
      vertices. */
  lemma MergedDense(ids: Ids)
    requires Good(ids)
    ensures |Merged(ids)| == ids.Start() + |ids.buffer|
    ensures Dense(Merged(ids), 0)
    ensures Merged(ids).Values == Range(0, ids.Start() + |ids.buffer|)
    ensures forall v :: v in Merged(ids) <==> ids.Known(v)
    ensures forall v :: v in Merged(ids) ==> Merged(ids)[v] == ids.Lookup(v)
  {
    var a, b := ids.vid2lvid, ids.buffer;
    DenseUnion(a, b);
    DenseValues(a + b, 0);
    MergedLookup(ids);
  }

  /** The merged table knows exactly the known vertices, each under the id
      it was handed. */
  lemma MergedLookup(ids: Ids)
    requires ids.vid2lvid.Keys !! ids.buffer.Keys
    ensures forall v :: v in Merged(ids) <==> ids.Known(v)
    ensures forall v :: v in Merged(ids) ==> Merged(ids)[v] == ids.Lookup(v)
  {
  }

  /** A dense table from 0 followed by a disjoint dense table from where the
      first ends is one dense table from 0. */
  lemma DenseUnion(a: map<VertexId, nat>, b: map<VertexId, nat>)
    requires Dense(a, 0) && Dense(b, |a|) && a.Keys !! b.Keys
    ensures |a + b| == |a| + |b|
    ensures Dense(a + b, 0)
  {
    UnionSize(a, b);
    UnionDense(a, b);
  }

  lemma UnionSize(a: map<VertexId, nat>, b: map<VertexId, nat>)
    requires a.Keys !! b.Keys
    ensures |a + b| == |a| + |b|
  {
    assert (a + b).Keys == a.Keys + b.Keys;
  }

  lemma UnionDense(a: map<VertexId, nat>, b: map<VertexId, nat>)
    requires Dense(a, 0) && Dense(b, |a|) && a.Keys !! b.Keys
    requires |a + b| == |a| + |b|
    ensures Dense(a + b, 0)
  {
    var m := a + b;
    forall u | u in m
      ensures m[u] == if u in b then b[u] else a[u]
    {
    }
  }

  /** A duplicate-free sequence has as many elements as its set. */
  lemma {:induction false} NoDupCard<T>(s: seq<T>, elems: set<T>)
    requires NoDup(s)
    requires forall x :: x in elems <==> x in s
    ensures |elems| == |s|
  {
    if s != [] {
      var pre := s[..|s| - 1];
      var last := s[|s| - 1];
      assert s == pre + [last];
      assert last !in pre;
      NoDupCard(pre, elems - {last});
    }
  }
}
