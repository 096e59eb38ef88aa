/** `resolve_ties`: every read kept by the best-hit search is committed to one
    genome cluster. A read with one best cluster goes there; a read tied
    across several is drawn among them with probability proportional to each
    tied cluster's abundance. The random draw is an injected chooser. */
module Ties {
  import opened Alignment
  import opened BestHits

  /** The `(cluster_id, pe_read)` pair a read ends up with. */
  datatype Assignment = Assignment(cluster: ClusterId, group: Group)

  /** The random draw: given the read, the tied clusters and their
      probabilities, the index of the cluster drawn. */
  type Chooser = (string, seq<ClusterId>, seq<real>) -> nat

  /** A chooser always draws one of the clusters offered. */
  ghost predicate ValidChooser(choose: Chooser)
  {
    forall q, ts, ps :: |ts| > 0 ==> choose(q, ts, ps) < |ts|
  }

  predicate NoDup<T(==)>(xs: seq<T>)
  {
    forall i, j :: 0 <= i < j < |xs| ==> xs[i] != xs[j]
  }

  /** The tied clusters, in the order the genome clusters are listed. */
  function Tied(order: seq<ClusterId>, alts: map<ClusterId, Group>): (ts: seq<ClusterId>)
    ensures forall i :: 0 <= i < |ts| ==> ts[i] in alts && ts[i] in order
    ensures forall c :: c in order && c in alts ==> c in ts
    ensures NoDup(order) ==> NoDup(ts)
  {
    if |order| == 0 then []
    else if order[0] in alts then [order[0]] + Tied(order[1..], alts)
    else Tied(order[1..], alts)
  }

  function Sum(xs: seq<real>): real
  {
    if |xs| == 0 then 0.0 else xs[0] + Sum(xs[1..])
  }

  /** The abundances of the tied clusters, `abunds` in the source. */
  function Abundances(ts: seq<ClusterId>, abund: map<ClusterId, real>): (a: seq<real>)
    requires forall i :: 0 <= i < |ts| ==> ts[i] in abund
    ensures |a| == |ts|
    ensures forall i :: 0 <= i < |ts| ==> a[i] == abund[ts[i]]
  {
    seq(|ts|, i requires 0 <= i < |ts| => abund[ts[i]])
  }

  /** The abundances are known, non-negative, and do not all vanish: the
      source divides by their sum and hands the quotients to a sampler that
      rejects negative probabilities. */
  predicate TieWeightsDefined(ts: seq<ClusterId>, abund: map<ClusterId, real>)
  {
    && (forall i :: 0 <= i < |ts| ==> ts[i] in abund && abund[ts[i]] >= 0.0)
    && Sum(Abundances(ts, abund)) > 0.0
  }

  /** `probs`: each tied cluster's share of the tied clusters' abundance. */
  function Weights(ts: seq<ClusterId>, abund: map<ClusterId, real>): (ps: seq<real>)
    requires TieWeightsDefined(ts, abund)
    ensures |ps| == |ts|
  {
    var total := Sum(Abundances(ts, abund));
    seq(|ts|, i requires 0 <= i < |ts| => abund[ts[i]] / total)
  }

  /** Dividing every term by the same total divides the sum by it. */
  lemma {:induction false} SumScaled(xs: seq<real>, total: real)
    requires total != 0.0
    ensures Sum(seq(|xs|, i requires 0 <= i < |xs| => xs[i] / total)) == Sum(xs) / total
  {
    var ys := seq(|xs|, i requires 0 <= i < |xs| => xs[i] / total);
    if |xs| > 0 {
      var tail := seq(|xs| - 1, i requires 0 <= i < |xs| - 1 => xs[1..][i] / total);
      assert ys[1..] == tail;
      SumScaled(xs[1..], total);
    }
  }

  /** The tie-break probabilities form a distribution over the tied
      clusters, each proportional to its cluster's abundance. */
  lemma WeightsWellFormed(ts: seq<ClusterId>, abund: map<ClusterId, real>)
    requires TieWeightsDefined(ts, abund)
    ensures forall i :: 0 <= i < |ts| ==> Weights(ts, abund)[i] >= 0.0
    ensures forall i :: 0 <= i < |ts| ==> Weights(ts, abund)[i] * Sum(Abundances(ts, abund)) == abund[ts[i]]
    ensures Sum(Weights(ts, abund)) == 1.0
  {
    WeightsShare(ts, abund);
    WeightsSum(ts, abund);
  }

  /** Each probability is its cluster's non-negative share. */
  lemma WeightsShare(ts: seq<ClusterId>, abund: map<ClusterId, real>)
    requires TieWeightsDefined(ts, abund)
    ensures forall i :: 0 <= i < |ts| ==> Weights(ts, abund)[i] >= 0.0
    ensures forall i :: 0 <= i < |ts| ==> Weights(ts, abund)[i] * Sum(Abundances(ts, abund)) == abund[ts[i]]
  {
    var a := Abundances(ts, abund);
    var total := Sum(a);
    var w := Weights(ts, abund);
    forall i | 0 <= i < |ts|
      ensures w[i] >= 0.0 && w[i] * total == abund[ts[i]]
    {
      assert w[i] == a[i] / total;
      DivNonNegative(a[i], total);
    }
  }

  /** The probabilities sum to 1. */
  lemma WeightsSum(ts: seq<ClusterId>, abund: map<ClusterId, real>)
    requires TieWeightsDefined(ts, abund)
    ensures Sum(Weights(ts, abund)) == 1.0
  {
    var a := Abundances(ts, abund);
    var total := Sum(a);
    SumScaled(a, total);
    assert Weights(ts, abund) == seq(|a|, i requires 0 <= i < |a| => a[i] / total);
    DivSelf(total);
  }

  lemma DivSelf(t: real)
    requires t > 0.0
    ensures t / t == 1.0
  {
  }

  lemma DivNonNegative(x: real, t: real)
    requires x >= 0.0 && t > 0.0
    ensures x / t >= 0.0 && (x / t) * t == x
  {
  }

  /** What `resolve_ties` needs of one stored read. */
  predicate Resolvable(h: Hit, order: seq<ClusterId>, abund: map<ClusterId, real>)
  {
    && h.alts != map[]
    && (forall c :: c in h.alts ==> c in order)
    && (|h.alts| > 1 ==> TieWeightsDefined(Tied(order, h.alts), abund))
  }

  /** The cluster the chooser draws for a tied read: the one at the drawn
      index of the tied clusters, offered with their abundance shares as
      probabilities. */
  function Drawn(q: string, h: Hit, order: seq<ClusterId>, abund: map<ClusterId, real>, choose: Chooser): (c: ClusterId)
    requires ValidChooser(choose)
    requires Resolvable(h, order, abund) && |h.alts| > 1
    ensures c in h.alts
    ensures
      var ts := Tied(order, h.alts);
      var k := choose(q, ts, Weights(ts, abund));
      k < |ts| && c == ts[k]
  {
    var ts := Tied(order, h.alts);
    TiedNonEmpty(h, order);
    ts[choose(q, ts, Weights(ts, abund))]
  }

  /** A stored read has at least one tied cluster. */
  lemma TiedNonEmpty(h: Hit, order: seq<ClusterId>)
    requires h.alts != map[]
    requires forall c :: c in h.alts ==> c in order
    ensures |Tied(order, h.alts)| > 0
  {
    var c0 :| c0 in h.alts;
    assert c0 in Tied(order, h.alts);
  }

  /** One read: its sole cluster, or a draw among the tied ones. */
  function Resolve(q: string, h: Hit, order: seq<ClusterId>, abund: map<ClusterId, real>, choose: Chooser): (a: Assignment)
    requires ValidChooser(choose)
    requires Resolvable(h, order, abund)
    ensures a.cluster in h.alts && a.group == h.alts[a.cluster]
    ensures |h.alts| == 1 ==> h.alts == map[a.cluster := a.group]
    ensures |h.alts| > 1 ==> a.cluster == Drawn(q, h, order, abund, choose)
  {
    var ts := Tied(order, h.alts);
    TiedNonEmpty(h, order);
    if |h.alts| == 1 then
      var c := ts[0];
      assert h.alts.Keys == {c} by {
        assert c in h.alts.Keys && |h.alts.Keys| == 1;
        SingletonSet(h.alts.Keys, c);
      }
      Assignment(c, h.alts[c])
    else
      var c := Drawn(q, h, order, abund, choose);
      Assignment(c, h.alts[c])
  }

  lemma SingletonSet<T>(s: set<T>, x: T)
    requires x in s && |s| == 1
    ensures s == {x}
  {
    if y :| y in s && y != x {
      assert {x, y} <= s;
      assert |{x, y}| == 2;
      SubsetSize({x, y}, s);
    }
  }

  lemma SubsetSize<T>(a: set<T>, b: set<T>)
    requires a <= b
    ensures |a| <= |b|
  {
    assert b == a + (b - a);
  }

  /** `resolve_ties` over the whole map. */
  function ResolveTies(best: map<string, Hit>, order: seq<ClusterId>, abund: map<ClusterId, real>, choose: Chooser): (r: map<string, Assignment>)
    requires ValidChooser(choose)
    requires forall q :: q in best ==> Resolvable(best[q], order, abund)
    ensures r.Keys == best.Keys
    ensures forall q :: q in r ==> r[q].cluster in best[q].alts && r[q].group == best[q].alts[r[q].cluster]
    ensures forall q :: q in r && |best[q].alts| == 1 ==> best[q].alts == map[r[q].cluster := r[q].group]
    ensures forall q :: q in best && |best[q].alts| > 1 ==> q in r && r[q].cluster == Drawn(q, best[q], order, abund, choose)
  {
    map q | q in best :: Resolve(q, best[q], order, abund, choose)
  }

  /** `find_best_hits` as a whole: search, then tie resolution. Exactly the
      stored reads are assigned, each has a compared unit, and each goes to
      one of its stored best clusters with that cluster's alignment. */
  function Reassign(f: Filter, units: seq<Unit>, order: seq<ClusterId>, abund: map<ClusterId, real>, choose: Chooser): (r: map<string, Assignment>)
    requires ValidChooser(choose) && AllAdmissible(f, units)
    requires forall q :: q in Fold(f, units) ==> Resolvable(Fold(f, units)[q], order, abund)
    ensures r.Keys == Fold(f, units).Keys
    ensures forall q :: q in r ==> exists i :: 0 <= i < |units| && Counted(f, units[i]) && QueryOf(units[i]) == q
    ensures forall q :: q in r ==> r[q].cluster in Fold(f, units)[q].alts && r[q].group == Fold(f, units)[q].alts[r[q].cluster]
  {
    ResolveTies(Fold(f, units), order, abund, choose)
  }

  /** Every read with an alignment that survives masking and the identity
      filter is assigned exactly one cluster, no other read is assigned, and
      the assignment is one of the read's own alignments with the best score
      the read reached on any cluster. */
  lemma ReassignCorrect(f: Filter, units: seq<Unit>, order: seq<ClusterId>, abund: map<ClusterId, real>, choose: Chooser)
    requires ValidChooser(choose) && AllAdmissible(f, units)
    requires forall q :: q in Fold(f, units) ==> Resolvable(Fold(f, units)[q], order, abund)
    ensures forall q :: q in Reassign(f, units, order, abund, choose) <==> exists i :: CountedFor(f, units, i, q)
    ensures forall q :: q in Reassign(f, units, order, abund, choose) ==>
      exists i :: (CountedFor(f, units, i, q)
        && units[i] == Unit(Reassign(f, units, order, abund, choose)[q].cluster, Reassign(f, units, order, abund, choose)[q].group)
        && forall j :: CountedFor(f, units, j, q) ==> Score(units[j].group) <= Score(units[i].group))
  {
    var best := Fold(f, units);
    var r := Reassign(f, units, order, abund, choose);
    FoldMeetsSpec(f, units);
    forall q | q in r
      ensures exists i :: (CountedFor(f, units, i, q)
        && units[i] == Unit(r[q].cluster, r[q].group)
        && forall j :: CountedFor(f, units, j, q) ==> Score(units[j].group) <= Score(units[i].group))
    {
      var c := r[q].cluster;
      assert c in best[q].alts;
      var i :| LastAttains(f, units, i, q, c, best[q].score) && units[i].group == best[q].alts[c];
      assert units[i] == Unit(c, r[q].group);
    }
  }

  /** A read scoring higher on one cluster than on another goes to the
      higher-scoring cluster whatever the chooser, in either visiting order. */
  lemma HigherScoreWins(f: Filter, a: Unit, b: Unit, order: seq<ClusterId>, abund: map<ClusterId, real>, choose: Chooser)
    requires ValidChooser(choose)
    requires Counted(f, a) && Counted(f, b) && QueryOf(a) == QueryOf(b)
    requires Score(a.group) < Score(b.group)
    requires b.cluster in order
    ensures Fold(f, [a, b]) == map[QueryOf(a) := Hit(Score(b.group), map[b.cluster := b.group])]
    ensures Fold(f, [b, a]) == map[QueryOf(a) := Hit(Score(b.group), map[b.cluster := b.group])]
    ensures AllAdmissible(f, [a, b]) && AllAdmissible(f, [b, a])
    ensures Resolvable(Hit(Score(b.group), map[b.cluster := b.group]), order, abund)
    ensures Reassign(f, [a, b], order, abund, choose)[QueryOf(a)] == Assignment(b.cluster, b.group)
    ensures Reassign(f, [b, a], order, abund, choose)[QueryOf(a)] == Assignment(b.cluster, b.group)
  {
    var hb := Hit(Score(b.group), map[b.cluster := b.group]);
    HigherScoreKept(f, a, b);
    SoleCluster(hb, b.cluster, order, abund);
    SoleResolution(f, [a, b], hb, order, abund, choose);
    SoleResolution(f, [b, a], hb, order, abund, choose);
  }

  /** The search keeps only the higher-scoring alignment, in either order. */
  lemma HigherScoreKept(f: Filter, a: Unit, b: Unit)
    requires Counted(f, a) && Counted(f, b) && QueryOf(a) == QueryOf(b)
    requires Score(a.group) < Score(b.group)
    ensures AllAdmissible(f, [a, b]) && AllAdmissible(f, [b, a])
    ensures Fold(f, [a, b]) == map[QueryOf(a) := Hit(Score(b.group), map[b.cluster := b.group])]
    ensures Fold(f, [b, a]) == map[QueryOf(a) := Hit(Score(b.group), map[b.cluster := b.group])]
  {
    FoldTwo(f, a, b);
    FoldTwo(f, b, a);
    FirstStep(f, a);
    FirstStep(f, b);
    var ha := Hit(Score(a.group), map[a.cluster := a.group]);
    var hb := Hit(Score(b.group), map[b.cluster := b.group]);
    LaterStep(f, QueryOf(a), ha, b);
    LaterStep(f, QueryOf(a), hb, a);
  }

  /** Two units fold as two steps from the empty map. */
  lemma FoldTwo(f: Filter, x: Unit, y: Unit)
    requires Admissible(f, x) && Admissible(f, y)
    ensures AllAdmissible(f, [x, y])
    ensures Fold(f, [x, y]) == Step(f, Step(f, map[], x), y)
  {
    assert [x, y][..1] == [x];
    assert [x][..0] == [];
  }

  /** The first compared unit is stored on its own. */
  lemma FirstStep(f: Filter, u: Unit)
    requires Counted(f, u)
    ensures Step(f, map[], u) == map[QueryOf(u) := Hit(Score(u.group), map[u.cluster := u.group])]
  {
  }

  /** A compared unit of the only stored read replaces a lower entry and
      leaves a higher one alone. */
  lemma LaterStep(f: Filter, q: string, h: Hit, u: Unit)
    requires Counted(f, u) && QueryOf(u) == q
    requires Score(u.group) != h.score
    ensures Score(u.group) > h.score ==> Step(f, map[q := h], u) == map[q := Hit(Score(u.group), map[u.cluster := u.group])]
    ensures Score(u.group) < h.score ==> Step(f, map[q := h], u) == map[q := h]
  {
  }

  /** A hit with one listed cluster, known to the cluster order, resolves. */
  lemma SoleCluster(h: Hit, c: ClusterId, order: seq<ClusterId>, abund: map<ClusterId, real>)
    requires h.alts.Keys == {c} && c in order
    ensures Resolvable(h, order, abund) && |h.alts| == 1
  {
    assert |h.alts.Keys| == 1;
  }

  /** A search whose only stored read has one cluster assigns that cluster. */
  lemma SoleResolution(f: Filter, units: seq<Unit>, h: Hit, order: seq<ClusterId>, abund: map<ClusterId, real>, choose: Chooser)
    requires ValidChooser(choose) && AllAdmissible(f, units)
    requires |units| > 0 && |units[0].group| >= 1
    requires Fold(f, units) == map[QueryOf(units[0]) := h]
    requires Resolvable(h, order, abund) && |h.alts| == 1
    ensures forall c :: c in h.alts ==> Reassign(f, units, order, abund, choose)[QueryOf(units[0])] == Assignment(c, h.alts[c])
  {
  }
}
