/** The greedy edge assigner `edge_to_proc_degree`.

    Each machine i gets the score
      (maxLoad - load_i) / (1 + maxLoad - minLoad) + sd1 + sd2 + td1 + td2 - d0
    where sd1/td1 say whether i already mirrors the source/target, sd2/td2
    whether it does so for the endpoint with the smaller degree, and d0 keeps
    a machine good for both from being rewarded twice. The machines whose
    score is within 1e-5 of the maximum are the candidates, and the canonical
    pair (min, max) of the endpoints is hashed to pick one of them.

    The balance term is computed here in exact `real` arithmetic. */
module Greedy {
  import opened Common

  /** The largest load. */
  function MaxOf(s: seq<nat>): (m: nat)
    requires |s| > 0
    ensures forall i :: 0 <= i < |s| ==> s[i] <= m
    ensures exists i :: 0 <= i < |s| && s[i] == m
  {
    if |s| == 1 then s[0]
    else
      var m' := MaxOf(s[..|s| - 1]);
      if s[|s| - 1] > m' then s[|s| - 1] else m'
  }

  /** The smallest load. */
  function MinOf(s: seq<nat>): (m: nat)
    requires |s| > 0
    ensures forall i :: 0 <= i < |s| ==> m <= s[i]
    ensures exists i :: 0 <= i < |s| && s[i] == m
  {
    if |s| == 1 then s[0]
    else
      var m' := MinOf(s[..|s| - 1]);
      if s[|s| - 1] < m' then s[|s| - 1] else m'
  }

  function Bit(b: bool): nat
  {
    if b then 1 else 0
  }

  /** The integer part of a machine's score: `sd1 + sd2 + td1 + td2 - d0`.
      It is between 0 and 3, and 0 exactly when the machine mirrors neither endpoint. */
  function MirrorBonus(inSrc: bool, inDst: bool, sourceSmall: bool, targetSmall: bool): (k: nat)
    ensures k <= 3
    ensures k == 0 <==> !inSrc && !inDst
  {
    var sd2 := inSrc && sourceSmall;
    var td2 := inDst && targetSmall;
    Bit(inSrc) + Bit(sd2) + Bit(inDst) + Bit(td2) - Bit(sd2 && td2)
  }

  /** `1 + maxLoad - minLoad`, the denominator of every balance term. */
  function Spread(loads: seq<nat>): (d: nat)
    requires |loads| > 0
    ensures d >= 1
  {
    1 + MaxOf(loads) - MinOf(loads)
  }

  /** The load-balance term of machine i. */
  function Balance(loads: seq<nat>, i: nat): real
    requires i < |loads|
  {
    (MaxOf(loads) - loads[i]) as real / Spread(loads) as real
  }

  /** The balance term lies in [0, 1), and the most-loaded machines get 0. */
  lemma BalanceBounds(loads: seq<nat>, i: nat)
    requires i < |loads|
    ensures 0.0 <= Balance(loads, i) < 1.0
    ensures loads[i] == MaxOf(loads) ==> Balance(loads, i) == 0.0
  {
    DivBelowOne((MaxOf(loads) - loads[i]) as real, Spread(loads) as real);
  }

  /** A smaller load never gets a smaller balance term, so the least-loaded
      machines get the largest one. */
  lemma BalanceMonotone(loads: seq<nat>, i: nat, j: nat)
    requires i < |loads| && j < |loads|
    ensures loads[i] <= loads[j] ==> Balance(loads, j) <= Balance(loads, i)
    ensures loads[i] == MinOf(loads) ==> Balance(loads, j) <= Balance(loads, i)
  {
    if loads[i] <= loads[j] {
      DivMonotone((MaxOf(loads) - loads[j]) as real, (MaxOf(loads) - loads[i]) as real, Spread(loads) as real);
    }
  }

  lemma DivBelowOne(a: real, d: real)
    requires 0.0 <= a < d
    ensures 0.0 <= a / d < 1.0
  {
    assert a / d * d == a;
  }

  lemma DivMonotone(b: real, a: real, d: real)
    requires 0.0 <= b <= a && d > 0.0
    ensures b / d <= a / d
  {
    assert a / d - b / d == (a - b) / d;
  }

  /** The score of machine i for the edge (source, target), given the mirror
      sets of the endpoints and their degrees `ds`, `dt`, as the source
      computes it (in exact arithmetic). */
  function Score(srcMirrors: set<ProcId>, dstMirrors: set<ProcId>, loads: seq<nat>, ds: nat, dt: nat, i: nat): real
    requires i < |loads|
  {
    Balance(loads, i) + MirrorBonus(i in srcMirrors, i in dstMirrors, dt >= ds, dt <= ds) as real
  }

  /** Every machine's score, `proc_score`. */
  function Scores(srcMirrors: set<ProcId>, dstMirrors: set<ProcId>, loads: seq<nat>, ds: nat, dt: nat): (sc: seq<real>)
    ensures |sc| == |loads|
  {
    seq(|loads|, i requires 0 <= i < |loads| => Score(srcMirrors, dstMirrors, loads, ds, dt, i))
  }

  /** The largest score, `max_score`. */
  function MaxReal(s: seq<real>): (m: real)
    requires |s| > 0
    ensures forall i :: 0 <= i < |s| ==> s[i] <= m
    ensures exists i :: 0 <= i < |s| && s[i] == m
  {
    if |s| == 1 then s[0]
    else
      var m' := MaxReal(s[..|s| - 1]);
      if s[|s| - 1] > m' then s[|s| - 1] else m'
  }

  /** The tie test of the source, `fabs(x - m) < 1e-5`. */
  predicate NearReal(x: real, m: real)
  {
    (if x < m then m - x else x - m) < 0.00001
  }

  /** All scores share the denominator `Spread(loads)`, so the assigner works
      on the integer numerators: machine i's score times the spread. */
  function Numerator(srcMirrors: set<ProcId>, dstMirrors: set<ProcId>, loads: seq<nat>, ds: nat, dt: nat, i: nat): nat
    requires i < |loads|
  {
    (MaxOf(loads) - loads[i]) + MirrorBonus(i in srcMirrors, i in dstMirrors, dt >= ds, dt <= ds) * Spread(loads)
  }

  function Numerators(srcMirrors: set<ProcId>, dstMirrors: set<ProcId>, loads: seq<nat>, ds: nat, dt: nat): (ns: seq<nat>)
    ensures |ns| == |loads|
  {
    seq(|loads|, i requires 0 <= i < |loads| => Numerator(srcMirrors, dstMirrors, loads, ds, dt, i))
  }

  /** The tie test on numerators over the common denominator d:
      |n/d - m/d| < 1e-5 exactly when 100000 * |n - m| < d. */
  predicate Near(n: nat, m: nat, d: nat)
  {
    100000 * (if n < m then m - n else n - m) < d
  }

  /** `top_procs`: the machines below k whose numerator is near `m`, in
      increasing order. */
  function TopProcs(nums: seq<nat>, m: nat, d: nat, k: nat): (top: seq<ProcId>)
    requires k <= |nums|
    ensures forall x: nat :: x in top <==> x < k && Near(nums[x], m, d)
    ensures forall a, b :: 0 <= a < b < |top| ==> top[a] < top[b]
  {
    if k == 0 then []
    else
      var p := TopProcs(nums, m, d, k - 1);
      assert forall a :: 0 <= a < |p| ==> p[a] in p;
      p + (if Near(nums[k - 1], m, d) then [k - 1] else [])
  }

  /** The maximum is near itself, so the candidate list is never empty. */
  lemma TopNonEmpty(nums: seq<nat>, d: nat)
    requires |nums| > 0 && d > 0
    ensures |TopProcs(nums, MaxOf(nums), d, |nums|)| > 0
  {
    var j :| 0 <= j < |nums| && nums[j] == MaxOf(nums);
    assert j in TopProcs(nums, MaxOf(nums), d, |nums|);
  }

  /** The machine `edge_to_proc_degree` returns: a candidate picked by the
      hash of the canonical pair. Degrees are read with default 0. */
  function EdgeToProcDegree(source: VertexId, target: VertexId, srcMirrors: set<ProcId>, dstMirrors: set<ProcId>,
                            loads: seq<nat>, deg: map<VertexId, nat>,
                            hashEdge: (VertexId, VertexId) -> nat): (best: ProcId)
    requires |loads| > 0
    ensures best < |loads|
    ensures var ns := Numerators(srcMirrors, dstMirrors, loads, Get0(deg, source), Get0(deg, target));
      Near(ns[best], MaxOf(ns), Spread(loads))
  {
    var ns := Numerators(srcMirrors, dstMirrors, loads, Get0(deg, source), Get0(deg, target));
    var top := TopProcs(ns, MaxOf(ns), Spread(loads), |ns|);
    TopNonEmpty(ns, Spread(loads));
    var lo := if source <= target then source else target;
    var hi := if source <= target then target else source;
    var pick := hashEdge(lo, hi) % |top|;
    assert top[pick] in top;
    top[pick]
  }

  /** Each score is its numerator over the spread. */
  lemma ScoreIsNumeratorOverSpread(srcMirrors: set<ProcId>, dstMirrors: set<ProcId>, loads: seq<nat>, ds: nat, dt: nat, i: nat)
    requires i < |loads|
    ensures Score(srcMirrors, dstMirrors, loads, ds, dt, i)
         == Numerator(srcMirrors, dstMirrors, loads, ds, dt, i) as real / Spread(loads) as real
  {
    var d := Spread(loads);
    var a := MaxOf(loads) - loads[i];
    var k := MirrorBonus(i in srcMirrors, i in dstMirrors, dt >= ds, dt <= ds);
    FractionSum(a, k, d);
  }

  lemma FractionSum(a: nat, k: nat, d: nat)
    requires d >= 1
    ensures a as real / d as real + k as real == (a + k * d) as real / d as real
  {
    AddOverDenominator(a as real, k as real, d as real);
    assert (a + k * d) as real == a as real + k as real * d as real;
  }

  lemma AddOverDenominator(a: real, k: real, d: real)
    requires d > 0.0
    ensures a / d + k == (a + k * d) / d
  {
    assert k == k * d / d;
  }

  /** Dividing by a positive denominator keeps order. */
  lemma DivOrder(n: real, m: real, d: real)
    requires d > 0.0
    ensures n <= m <==> n / d <= m / d
  {
    assert n == n / d * d && m == m / d * d;
    if n / d <= m / d {
      assert (m / d - n / d) * d >= 0.0;
    }
  }

  lemma SubOverDenominator(a: real, b: real, d: real)
    requires d > 0.0
    ensures a / d - b / d == (a - b) / d
  {
  }

  lemma DivBelow(a: real, c: real, d: real)
    requires d > 0.0
    ensures a / d < c <==> a < c * d
  {
    var q := a / d;
    assert a == q * d;
    assert (c - q) * d == c * d - a;
    if q < c {
      assert (c - q) * d > 0.0;
    } else {
      assert (q - c) * d >= 0.0;
    }
  }

  /** The tie test on reals and on numerators agree. */
  lemma NearAgrees(n: nat, m: nat, d: nat)
    requires d > 0
    ensures NearReal(n as real / d as real, m as real / d as real) <==> Near(n, m, d)
  {
    var dr := d as real;
    var x, y := n as real / dr, m as real / dr;
    var g: nat := if n < m then m - n else n - m;
    SubOverDenominator(n as real, m as real, dr);
    SubOverDenominator(m as real, n as real, dr);
    DivOrder(n as real, m as real, dr);
    assert (if x < y then y - x else x - y) == g as real / dr;
    DivBelow(g as real, 0.00001, dr);
  }

  /** The maximum of values sharing a positive denominator is the maximal
      numerator over that denominator. */
  lemma MaxOfScaled(sc: seq<real>, ns: seq<nat>, d: real)
    requires |sc| == |ns| > 0 && d > 0.0
    requires forall i :: 0 <= i < |sc| ==> sc[i] == ns[i] as real / d
    ensures MaxReal(sc) == MaxOf(ns) as real / d
  {
    var j :| 0 <= j < |sc| && sc[j] == MaxReal(sc);
    var k :| 0 <= k < |ns| && ns[k] == MaxOf(ns);
    var mr, mn := MaxReal(sc), MaxOf(ns);
    assert sc[k] <= mr;
    assert ns[j] <= mn;
    DivOrder(ns[j] as real, ns[k] as real, d);
  }

  /** The largest score is the largest numerator over the spread. */
  lemma MaxScoreIsMaxNumerator(srcMirrors: set<ProcId>, dstMirrors: set<ProcId>, loads: seq<nat>, ds: nat, dt: nat)
    requires |loads| > 0
    ensures MaxReal(Scores(srcMirrors, dstMirrors, loads, ds, dt))
         == MaxOf(Numerators(srcMirrors, dstMirrors, loads, ds, dt)) as real / Spread(loads) as real
  {
    var sc := Scores(srcMirrors, dstMirrors, loads, ds, dt);
    var ns := Numerators(srcMirrors, dstMirrors, loads, ds, dt);
    forall i | 0 <= i < |sc|
      ensures sc[i] == ns[i] as real / Spread(loads) as real
    {
      ScoreIsNumeratorOverSpread(srcMirrors, dstMirrors, loads, ds, dt, i);
    }
    MaxOfScaled(sc, ns, Spread(loads) as real);
  }

  /** The candidates computed on numerators are exactly the machines whose
      real score passes the source's tie test against the real maximum. */
  lemma TopMatchesScores(srcMirrors: set<ProcId>, dstMirrors: set<ProcId>, loads: seq<nat>, ds: nat, dt: nat, i: nat)
    requires i < |loads|
    ensures var sc := Scores(srcMirrors, dstMirrors, loads, ds, dt);
      var ns := Numerators(srcMirrors, dstMirrors, loads, ds, dt);
      NearReal(sc[i], MaxReal(sc)) <==> Near(ns[i], MaxOf(ns), Spread(loads))
  {
    var ns := Numerators(srcMirrors, dstMirrors, loads, ds, dt);
    ScoreIsNumeratorOverSpread(srcMirrors, dstMirrors, loads, ds, dt, i);
    MaxScoreIsMaxNumerator(srcMirrors, dstMirrors, loads, ds, dt);
    NearAgrees(ns[i], MaxOf(ns), Spread(loads));
  }

  /** `top_procs` as the source fills it: the machines below k whose real
      score passes the tie test against `m`, in increasing order. */
  function TopByScore(sc: seq<real>, m: real, k: nat): (top: seq<ProcId>)
    requires k <= |sc|
    ensures forall x: nat :: x in top <==> x < k && NearReal(sc[x], m)
  {
    if k == 0 then []
    else TopByScore(sc, m, k - 1) + (if NearReal(sc[k - 1], m) then [k - 1] else [])
  }

  /** The candidate list built on numerators is the very list the source
      builds on real scores, element for element. */
  lemma {:induction false} TopListsAgree(srcMirrors: set<ProcId>, dstMirrors: set<ProcId>, loads: seq<nat>,
                                         ds: nat, dt: nat, k: nat)
    requires 0 < |loads| && k <= |loads|
    ensures var sc := Scores(srcMirrors, dstMirrors, loads, ds, dt);
      var ns := Numerators(srcMirrors, dstMirrors, loads, ds, dt);
      TopProcs(ns, MaxOf(ns), Spread(loads), k) == TopByScore(sc, MaxReal(sc), k)
  {
    if k > 0 {
      TopListsAgree(srcMirrors, dstMirrors, loads, ds, dt, k - 1);
      TopMatchesScores(srcMirrors, dstMirrors, loads, ds, dt, k - 1);
    }
  }

  /** `EdgeToProcDegree` returns the machine the source picks: the entry of
      its real-valued `top_procs` at `hash_edge(min, max) % |top_procs|`. */
  lemma EdgeToProcIsSourcePick(source: VertexId, target: VertexId, srcMirrors: set<ProcId>, dstMirrors: set<ProcId>,
                               loads: seq<nat>, deg: map<VertexId, nat>, hashEdge: (VertexId, VertexId) -> nat)
    requires |loads| > 0
    ensures var sc := Scores(srcMirrors, dstMirrors, loads, Get0(deg, source), Get0(deg, target));
      var top := TopByScore(sc, MaxReal(sc), |sc|);
      var lo := if source <= target then source else target;
      var hi := if source <= target then target else source;
      && |top| > 0
      && EdgeToProcDegree(source, target, srcMirrors, dstMirrors, loads, deg, hashEdge) == top[hashEdge(lo, hi) % |top|]
  {
    var ds, dt := Get0(deg, source), Get0(deg, target);
    var ns := Numerators(srcMirrors, dstMirrors, loads, ds, dt);
    TopListsAgree(srcMirrors, dstMirrors, loads, ds, dt, |loads|);
    TopNonEmpty(ns, Spread(loads));
  }

  /** As long as the load spread stays below 99999, the 1e-5 tolerance
      selects exactly the machines with the maximal score. */
  lemma ToleranceIsExact(nums: seq<nat>, d: nat, i: nat)
    requires i < |nums|
    requires 1 <= d <= 99999
    ensures Near(nums[i], MaxOf(nums), d) <==> nums[i] == MaxOf(nums)
  {
  }

  /** Under the same spread bound the chosen machine has a maximal score. */
  lemma ChosenHasMaximalScore(source: VertexId, target: VertexId, srcMirrors: set<ProcId>, dstMirrors: set<ProcId>,
                              loads: seq<nat>, deg: map<VertexId, nat>, hashEdge: (VertexId, VertexId) -> nat)
    requires |loads| > 0
    requires MaxOf(loads) - MinOf(loads) < 99999
    ensures var best := EdgeToProcDegree(source, target, srcMirrors, dstMirrors, loads, deg, hashEdge);
      var sc := Scores(srcMirrors, dstMirrors, loads, Get0(deg, source), Get0(deg, target));
      forall j :: 0 <= j < |sc| ==> sc[j] <= sc[best]
  {
    var ds, dt := Get0(deg, source), Get0(deg, target);
    var best := EdgeToProcDegree(source, target, srcMirrors, dstMirrors, loads, deg, hashEdge);
    var sc := Scores(srcMirrors, dstMirrors, loads, ds, dt);
    var ns := Numerators(srcMirrors, dstMirrors, loads, ds, dt);
    ToleranceIsExact(ns, Spread(loads), best);
    forall j | 0 <= j < |sc|
      ensures sc[j] <= sc[best]
    {
      ScoreIsNumeratorOverSpread(srcMirrors, dstMirrors, loads, ds, dt, j);
      ScoreIsNumeratorOverSpread(srcMirrors, dstMirrors, loads, ds, dt, best);
      DivOrder(ns[j] as real, ns[best] as real, Spread(loads) as real);
    }
  }

  /** Swapping source and target together with their mirror sets leaves every
      numerator unchanged. */
  lemma NumeratorsSymmetric(srcMirrors: set<ProcId>, dstMirrors: set<ProcId>, loads: seq<nat>, ds: nat, dt: nat)
    ensures Numerators(srcMirrors, dstMirrors, loads, ds, dt) == Numerators(dstMirrors, srcMirrors, loads, dt, ds)
  {
    var a := Numerators(srcMirrors, dstMirrors, loads, ds, dt);
    var b := Numerators(dstMirrors, srcMirrors, loads, dt, ds);
    forall i | 0 <= i < |loads|
      ensures a[i] == b[i]
    {
      assert MirrorBonus(i in srcMirrors, i in dstMirrors, dt >= ds, dt <= ds)
          == MirrorBonus(i in dstMirrors, i in srcMirrors, ds >= dt, ds <= dt);
    }
  }

  /** Swapping source and target together with their mirror sets and
      degrees leaves every machine's score unchanged. */
  lemma ScoresSymmetric(srcMirrors: set<ProcId>, dstMirrors: set<ProcId>, loads: seq<nat>, ds: nat, dt: nat)
    ensures Scores(srcMirrors, dstMirrors, loads, ds, dt) == Scores(dstMirrors, srcMirrors, loads, dt, ds)
  {
    var a := Scores(srcMirrors, dstMirrors, loads, ds, dt);
    var b := Scores(dstMirrors, srcMirrors, loads, dt, ds);
    forall i | 0 <= i < |loads|
      ensures a[i] == b[i]
    {
      assert MirrorBonus(i in srcMirrors, i in dstMirrors, dt >= ds, dt <= ds)
          == MirrorBonus(i in dstMirrors, i in srcMirrors, ds >= dt, ds <= dt);
    }
  }

  /** The assignment does not depend on which endpoint is called the source. */
  lemma EdgeToProcSymmetric(source: VertexId, target: VertexId, srcMirrors: set<ProcId>, dstMirrors: set<ProcId>,
                            loads: seq<nat>, deg: map<VertexId, nat>, hashEdge: (VertexId, VertexId) -> nat)
    requires |loads| > 0
    ensures EdgeToProcDegree(source, target, srcMirrors, dstMirrors, loads, deg, hashEdge)
         == EdgeToProcDegree(target, source, dstMirrors, srcMirrors, loads, deg, hashEdge)
  {
    NumeratorsSymmetric(srcMirrors, dstMirrors, loads, Get0(deg, source), Get0(deg, target));
  }
}
