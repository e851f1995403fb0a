/** Vocabulary shared by every part of the constellation ingress model:
    identifiers, the wire records the ingress exchanges, and small helpers
    over maps and sequences. */
module Common {

  /** Globally unique vertex id supplied by the caller. */
  type VertexId = nat

  /** A cluster machine, in [0, numProcs). */
  type ProcId = nat

  /** The `hash_flag` of an edge record, as a tagged variant. `Code` gives the
      number the wire format carries (0, 1, 2). */
  datatype HashFlag = Unflagged | SourceSide | TargetSide {
    function Code(): (c: nat)
      ensures c <= 2
      ensures (c == 0) == Unflagged? && (c == 1) == SourceSide? && (c == 2) == TargetSide?
    {
      match this
      case Unflagged => 0
      case SourceSide => 1
      case TargetSide => 2
    }
  }

  /** `edge_buffer_record`: an edge with its payload and the flag saying which
      endpoint's hash owner this copy was routed to. */
  datatype EdgeRecord<E> = EdgeRecord(source: VertexId, target: VertexId, data: E, flag: HashFlag)

  /** `vertex_buffer_record`: a vertex payload submitted through `add_vertex`. */
  datatype VertexBufferRecord<V> = VertexBufferRecord(vid: VertexId, data: V)

  /** `mirror_buffer_record`: "machine `pid` now holds a replica of `vid`". */
  datatype MirrorRecord = MirrorRecord(vid: VertexId, pid: ProcId)

  /** `vertex_degree_buffer_record`: the degree of `vid` counted by its hash owner. */
  datatype DegreeRecord = DegreeRecord(vid: VertexId, degree: nat)

  /** One record handed to a buffered exchange, addressed to machine `dest`. */
  datatype Send<T> = Send(dest: ProcId, rec: T)

  /** `degree_set[v]` on a hash map that default-inserts 0 for a missing key. */
  function Get0(m: map<VertexId, nat>, v: VertexId): (d: nat)
    ensures v in m ==> d == m[v]
    ensures v !in m ==> d == 0
  {
    if v in m then m[v] else 0
  }

  /** Sum of a sequence of counters. */
  function Sum(s: seq<nat>): nat
  {
    if s == [] then 0 else Sum(s[..|s| - 1]) + s[|s| - 1]
  }

  /** Incrementing one counter raises the sum by exactly one. */
  lemma {:induction false} SumIncrement(s: seq<nat>, i: nat)
    requires i < |s|
    ensures Sum(s[i := s[i] + 1]) == Sum(s) + 1
  {
    var t := s[i := s[i] + 1];
    if i == |s| - 1 {
      assert t[..|t| - 1] == s[..|s| - 1];
    } else {
      assert t[..|t| - 1] == s[..|s| - 1][i := s[i] + 1];
      SumIncrement(s[..|s| - 1], i);
    }
  }

  /** The integers in [lo, hi). */
  function Range(lo: nat, hi: nat): (r: set<nat>)
    ensures forall i :: i in r <==> lo <= i < hi
  {
    if hi <= lo then {} else Range(lo, hi - 1) + {hi - 1}
  }

  /** [lo, hi) has hi - lo elements. */
  lemma {:induction false} RangeSize(lo: nat, hi: nat)
    requires lo <= hi
    ensures |Range(lo, hi)| == hi - lo
  {
    if lo < hi {
      RangeSize(lo, hi - 1);
    }
  }

  /** A prefix of a prefix is a prefix. */
  lemma PrefixOfPrefix<T>(s: seq<T>, n: nat, j: nat)
    requires j <= n <= |s|
    ensures s[..n][..j] == s[..j]
  {
  }

  /** No key shares its value with another key. */
  ghost predicate Injective<K, W>(m: map<K, W>)
  {
    forall a, b :: a in m && b in m && a != b ==> m[a] != m[b]
  }

  /** No element occurs twice. */
  predicate NoDup<T(==)>(s: seq<T>)
  {
    forall i, j :: 0 <= i < j < |s| ==> s[i] != s[j]
  }
}
