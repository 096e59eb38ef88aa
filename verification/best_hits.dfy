/** The scoring, filtering and folding half of `find_best_hits`: every read
    aligned to every candidate genome cluster is scored, optionally masked,
    filtered by percent identity, and folded into a map from read name to the
    best score seen and the clusters that reach it. */
module BestHits {
  import opened Results
  import opened Strings
  import opened Alignment

  type ClusterId = string

  /** One read as aligned to one genome cluster: the `(cluster_id, pe_read)`
      the search loop visits. */
  datatype Unit = Unit(cluster: ClusterId, group: Group)

  /** The entry kept per read: the best score and, per cluster reaching it,
      the read's alignment to that cluster. */
  datatype Hit = Hit(score: int, alts: map<ClusterId, Group>)

  /** Benchmarking mask: the true source genome of each sequencing run and,
      per genome cluster, the genome each of its reference scaffolds comes
      from (each cluster's table is read afresh from that cluster's own
      `genome_to_scaffold.gz`). */
  datatype TaxMask = TaxMask(runToGenome: map<string, string>, scaffoldToGenome: map<ClusterId, map<string, string>>)

  /** The search settings: the optional mask and the minimum percent identity. */
  datatype Filter = Filter(mask: Option<TaxMask>, pidMin: real)

  /** The run a read comes from: its name up to the first `.`. */
  function RunAccession(name: string): string
  {
    Split(name, '.')[0]
  }

  function QueryOf(u: Unit): string
    requires |u.group| >= 1
  {
    u.group[0].queryName
  }

  /** Both mask lookups succeed (otherwise the source raises `KeyError`). */
  predicate MaskDefined(m: TaxMask, u: Unit)
  {
    && |u.group| >= 1
    && RunAccession(QueryOf(u)) in m.runToGenome
    && u.cluster in m.scaffoldToGenome
    && u.group[0].scaffold in m.scaffoldToGenome[u.cluster]
  }

  /** The read's own genome is the genome of the scaffold it hit. */
  predicate Masked(f: Filter, u: Unit)
    requires |u.group| >= 1 && (f.mask.Some? ==> MaskDefined(f.mask.value, u))
  {
    && f.mask.Some?
    && f.mask.value.runToGenome[RunAccession(QueryOf(u))] == f.mask.value.scaffoldToGenome[u.cluster][u.group[0].scaffold]
  }

  /** The source processes the unit without raising: mask keys present and,
      for an unmasked read, a positive aligned length to divide by. */
  predicate Admissible(f: Filter, u: Unit)
  {
    && |u.group| >= 1
    && (f.mask.Some? ==> MaskDefined(f.mask.value, u))
    && (!Masked(f, u) ==> Scorable(u.group) && ReadLength(u.group) > 0)
  }

  predicate AllAdmissible(f: Filter, units: seq<Unit>)
  {
    forall i :: 0 <= i < |units| ==> Admissible(f, units[i])
  }

  /** The unit survives masking and the identity filter and is compared. */
  predicate Counted(f: Filter, u: Unit)
  {
    Admissible(f, u) && !Masked(f, u) && PercId(u.group) >= f.pidMin
  }

  /** One iteration of the search loop: a unit that is not compared leaves
      the map alone; a compared one touches only its read's entry, which then
      holds the larger of the old and the new score, and lists the unit's
      cluster with its alignment when the new score is the one kept. */
  function Step(f: Filter, best: map<string, Hit>, u: Unit): (r: map<string, Hit>)
    requires Admissible(f, u)
    ensures !Counted(f, u) ==> r == best
    ensures Counted(f, u) ==> r.Keys == best.Keys + {QueryOf(u)}
    ensures forall q :: q in best && q != QueryOf(u) ==> r[q] == best[q]
    ensures Counted(f, u) ==> var q := QueryOf(u);
      && r[q].score >= Score(u.group)
      && (q in best ==> r[q].score >= best[q].score)
      && (r[q].score == Score(u.group) ==> u.cluster in r[q].alts && r[q].alts[u.cluster] == u.group)
      && (r[q].score != Score(u.group) ==> q in best && r[q] == best[q])
  {
    if Masked(f, u) then best
    else
      var q := QueryOf(u);
      var s := Score(u.group);
      if PercId(u.group) < f.pidMin then best
      else if q !in best then best[q := Hit(s, map[u.cluster := u.group])]
      else if s > best[q].score then best[q := Hit(s, map[u.cluster := u.group])]
      else if s == best[q].score then best[q := Hit(s, best[q].alts[u.cluster := u.group])]
      else best
  }

  /** The search loop over all units, in visiting order: only reads with a
      compared unit are stored, each with at least one cluster. */
  function Fold(f: Filter, units: seq<Unit>): (r: map<string, Hit>)
    requires AllAdmissible(f, units)
    ensures forall q :: q in r ==> exists i :: 0 <= i < |units| && Counted(f, units[i]) && QueryOf(units[i]) == q
    ensures forall q :: q in r ==> r[q].alts != map[]
  {
    if |units| == 0 then map[]
    else
      var prefix := units[..|units| - 1];
      assert forall i :: 0 <= i < |prefix| ==> prefix[i] == units[i];
      Step(f, Fold(f, prefix), units[|units| - 1])
  }

  // ---------------------------------------------------------------------
  // Reference description of the fold's result
  // ---------------------------------------------------------------------

  /** Unit `i` is compared for read `q`. */
  ghost predicate CountedFor(f: Filter, units: seq<Unit>, i: int, q: string)
  {
    0 <= i < |units| && Counted(f, units[i]) && QueryOf(units[i]) == q
  }

  /** Unit `i` is compared for read `q`, on cluster `c`, with score `s`. */
  ghost predicate Attains(f: Filter, units: seq<Unit>, i: int, q: string, c: ClusterId, s: int)
  {
    CountedFor(f, units, i, q) && units[i].cluster == c && Score(units[i].group) == s
  }

  /** ... and no later unit does the same. */
  ghost predicate LastAttains(f: Filter, units: seq<Unit>, i: int, q: string, c: ClusterId, s: int)
  {
    Attains(f, units, i, q, c, s) && forall j :: i < j < |units| ==> !Attains(f, units, j, q, c, s)
  }

  /** Stored reads are exactly those with a compared unit. */
  ghost predicate DomainSpec(f: Filter, units: seq<Unit>, best: map<string, Hit>)
  {
    forall q :: q in best <==> exists i :: CountedFor(f, units, i, q)
  }

  /** The stored score bounds every compared unit of the read. */
  ghost predicate BoundSpec(f: Filter, units: seq<Unit>, best: map<string, Hit>)
  {
    forall q, i :: q in best && CountedFor(f, units, i, q) ==> Score(units[i].group) <= best[q].score
  }

  ghost predicate NonEmptySpec(best: map<string, Hit>)
  {
    forall q :: q in best ==> best[q].alts != map[]
  }

  /** Every cluster on which the read reaches the stored score is listed. */
  ghost predicate CompleteSpec(f: Filter, units: seq<Unit>, best: map<string, Hit>)
  {
    forall q, i :: q in best && CountedFor(f, units, i, q) && Score(units[i].group) == best[q].score
      ==> units[i].cluster in best[q].alts
  }

  /** Every listed cluster reaches the stored score, and what is kept for it
      is its last alignment reaching that score. */
  ghost predicate SoundSpec(f: Filter, units: seq<Unit>, best: map<string, Hit>)
  {
    forall q, c :: q in best && c in best[q].alts ==>
      exists i :: LastAttains(f, units, i, q, c, best[q].score) && units[i].group == best[q].alts[c]
  }

  ghost predicate HitsSpec(f: Filter, units: seq<Unit>, best: map<string, Hit>)
  {
    && DomainSpec(f, units, best)
    && BoundSpec(f, units, best)
    && NonEmptySpec(best)
    && CompleteSpec(f, units, best)
    && SoundSpec(f, units, best)
  }

  // ---------------------------------------------------------------------
  // The fold meets the reference description
  // ---------------------------------------------------------------------

  /** How a unit's index reads in the extended sequence. */
  lemma ExtendCounted(f: Filter, units: seq<Unit>, u: Unit, i: int, q: string)
    ensures CountedFor(f, units + [u], i, q) <==>
      (CountedFor(f, units, i, q) || (i == |units| && Counted(f, u) && QueryOf(u) == q))
  {
    if 0 <= i < |units| {
      assert (units + [u])[i] == units[i];
    }
  }

  lemma StepDomain(f: Filter, units: seq<Unit>, best: map<string, Hit>, u: Unit)
    requires Admissible(f, u)
    requires DomainSpec(f, units, best)
    ensures DomainSpec(f, units + [u], Step(f, best, u))
  {
    var units' := units + [u];
    var best' := Step(f, best, u);
    forall q
      ensures q in best' <==> exists i :: CountedFor(f, units', i, q)
    {
      if q in best' {
        if q in best {
          var i :| CountedFor(f, units, i, q);
          ExtendCounted(f, units, u, i, q);
        } else {
          ExtendCounted(f, units, u, |units|, q);
        }
      }
      if exists i :: CountedFor(f, units', i, q) {
        var i :| CountedFor(f, units', i, q);
        ExtendCounted(f, units, u, i, q);
      }
    }
  }

  lemma StepBound(f: Filter, units: seq<Unit>, best: map<string, Hit>, u: Unit)
    requires Admissible(f, u)
    requires DomainSpec(f, units, best) && BoundSpec(f, units, best)
    ensures BoundSpec(f, units + [u], Step(f, best, u))
  {
    var units' := units + [u];
    var best' := Step(f, best, u);
    forall q, i | q in best' && CountedFor(f, units', i, q)
      ensures Score(units'[i].group) <= best'[q].score
    {
      ExtendCounted(f, units, u, i, q);
      if i < |units| {
        assert units'[i] == units[i];
        assert q in best;
      }
    }
  }

  lemma StepNonEmpty(f: Filter, best: map<string, Hit>, u: Unit)
    requires Admissible(f, u)
    requires NonEmptySpec(best)
    ensures NonEmptySpec(Step(f, best, u))
  {
    var best' := Step(f, best, u);
    forall q | q in best'
      ensures best'[q].alts != map[]
    {
      if !Masked(f, u) && q == QueryOf(u) && q in best' {
        assert u.cluster in best'[q].alts || best'[q] == best[q];
      }
    }
  }

  lemma StepComplete(f: Filter, units: seq<Unit>, best: map<string, Hit>, u: Unit)
    requires Admissible(f, u)
    requires DomainSpec(f, units, best) && BoundSpec(f, units, best) && CompleteSpec(f, units, best)
    ensures CompleteSpec(f, units + [u], Step(f, best, u))
  {
    var units' := units + [u];
    var best' := Step(f, best, u);
    forall q, i | q in best' && CountedFor(f, units', i, q) && Score(units'[i].group) == best'[q].score
      ensures units'[i].cluster in best'[q].alts
    {
      ExtendCounted(f, units, u, i, q);
      if i < |units| {
        assert units'[i] == units[i];
        assert CountedFor(f, units, i, q);
        assert q in best;
        assert Score(units[i].group) <= best[q].score;
      } else {
        assert units'[i] == u;
      }
    }
  }

  /** A cluster entry the new unit does not reach is carried over unchanged. */
  lemma StepKeeps(f: Filter, best: map<string, Hit>, u: Unit, q: string, c: ClusterId)
    requires Admissible(f, u)
    requires q in Step(f, best, u) && c in Step(f, best, u)[q].alts
    requires !(Counted(f, u) && QueryOf(u) == q && u.cluster == c && Score(u.group) == Step(f, best, u)[q].score)
    ensures q in best && c in best[q].alts
    ensures best[q].score == Step(f, best, u)[q].score
    ensures best[q].alts[c] == Step(f, best, u)[q].alts[c]
  {
  }

  /** The new unit is the last one to reach its own score. */
  lemma NewUnitLast(f: Filter, units: seq<Unit>, u: Unit)
    requires Counted(f, u)
    ensures LastAttains(f, units + [u], |units|, QueryOf(u), u.cluster, Score(u.group))
  {
    ExtendCounted(f, units, u, |units|, QueryOf(u));
    assert (units + [u])[|units|] == u;
  }

  /** An old unit stays the last to reach a score the new unit does not. */
  lemma OldUnitLast(f: Filter, units: seq<Unit>, u: Unit, i: int, q: string, c: ClusterId, s: int)
    requires LastAttains(f, units, i, q, c, s)
    requires !(Counted(f, u) && QueryOf(u) == q && u.cluster == c && Score(u.group) == s)
    ensures LastAttains(f, units + [u], i, q, c, s)
    ensures (units + [u])[i] == units[i]
  {
    var units' := units + [u];
    var n := |units|;
    ExtendCounted(f, units, u, i, q);
    assert units'[i] == units[i];
    forall j | i < j < |units'|
      ensures !Attains(f, units', j, q, c, s)
    {
      ExtendCounted(f, units, u, j, q);
      if j < n {
        assert units'[j] == units[j];
        assert !Attains(f, units, j, q, c, s);
      } else {
        assert units'[j] == u;
      }
    }
  }

  lemma StepSound(f: Filter, units: seq<Unit>, best: map<string, Hit>, u: Unit)
    requires Admissible(f, u)
    requires SoundSpec(f, units, best)
    ensures SoundSpec(f, units + [u], Step(f, best, u))
  {
    var units' := units + [u];
    var best' := Step(f, best, u);
    forall q, c | q in best' && c in best'[q].alts
      ensures exists i :: LastAttains(f, units', i, q, c, best'[q].score) && units'[i].group == best'[q].alts[c]
    {
      var s := best'[q].score;
      if Counted(f, u) && QueryOf(u) == q && u.cluster == c && Score(u.group) == s {
        NewUnitLast(f, units, u);
        assert best'[q].alts[c] == u.group;
        assert units'[|units|] == u;
      } else {
        StepKeeps(f, best, u, q, c);
        var i :| LastAttains(f, units, i, q, c, s) && units[i].group == best[q].alts[c];
        OldUnitLast(f, units, u, i, q, c, s);
      }
    }
  }

  /** The search loop produces exactly the map the reference description
      asks for: the reads with a compared unit, each with its maximal score
      and the clusters attaining it. */
  lemma {:induction false} FoldMeetsSpec(f: Filter, units: seq<Unit>)
    requires AllAdmissible(f, units)
    ensures HitsSpec(f, units, Fold(f, units))
  {
    if |units| > 0 {
      var prefix := units[..|units| - 1];
      var u := units[|units| - 1];
      FoldMeetsSpec(f, prefix);
      var best := Fold(f, prefix);
      StepDomain(f, prefix, best, u);
      StepBound(f, prefix, best, u);
      StepNonEmpty(f, best, u);
      StepComplete(f, prefix, best, u);
      StepSound(f, prefix, best, u);
      assert prefix + [u] == units;
    }
  }

  /** Two last units reaching the same score on the same cluster coincide. */
  lemma LastAttainsUnique(f: Filter, units: seq<Unit>, i: int, j: int, q: string, c: ClusterId, s: int)
    requires LastAttains(f, units, i, q, c, s) && LastAttains(f, units, j, q, c, s)
    ensures i == j
  {
  }

  /** A score meeting the description is attained by some unit. */
  lemma ScoreAttained(f: Filter, units: seq<Unit>, m: map<string, Hit>, q: string) returns (i: int)
    requires NonEmptySpec(m) && SoundSpec(f, units, m) && q in m
    ensures CountedFor(f, units, i, q) && Score(units[i].group) == m[q].score
  {
    var c :| c in m[q].alts;
    i :| LastAttains(f, units, i, q, c, m[q].score) && units[i].group == m[q].alts[c];
  }

  lemma SpecScoresAgree(f: Filter, units: seq<Unit>, m1: map<string, Hit>, m2: map<string, Hit>, q: string)
    requires HitsSpec(f, units, m1) && HitsSpec(f, units, m2)
    requires q in m1 && q in m2
    ensures m1[q].score == m2[q].score
  {
    var i1 := ScoreAttained(f, units, m1, q);
    var i2 := ScoreAttained(f, units, m2, q);
    assert Score(units[i1].group) <= m2[q].score;
    assert Score(units[i2].group) <= m1[q].score;
  }

  lemma SpecAltsAgree(f: Filter, units: seq<Unit>, m1: map<string, Hit>, m2: map<string, Hit>, q: string)
    requires CompleteSpec(f, units, m1) && SoundSpec(f, units, m1)
    requires CompleteSpec(f, units, m2) && SoundSpec(f, units, m2)
    requires q in m1 && q in m2 && m1[q].score == m2[q].score
    ensures m1[q].alts == m2[q].alts
  {
    var s := m1[q].score;
    forall c | c in m1[q].alts
      ensures c in m2[q].alts && m1[q].alts[c] == m2[q].alts[c]
    {
      var i :| LastAttains(f, units, i, q, c, s) && units[i].group == m1[q].alts[c];
      assert c in m2[q].alts;
      var j :| LastAttains(f, units, j, q, c, s) && units[j].group == m2[q].alts[c];
      LastAttainsUnique(f, units, i, j, q, c, s);
    }
    forall c | c in m2[q].alts
      ensures c in m1[q].alts
    {
      var j :| LastAttains(f, units, j, q, c, s) && units[j].group == m2[q].alts[c];
    }
  }

  lemma SpecKeysAgree(f: Filter, units: seq<Unit>, m1: map<string, Hit>, m2: map<string, Hit>)
    requires DomainSpec(f, units, m1) && DomainSpec(f, units, m2)
    ensures m1.Keys == m2.Keys
  {
    forall q
      ensures q in m1 <==> q in m2
    {
      assert q in m1 <==> exists i :: CountedFor(f, units, i, q);
    }
  }

  /** The reference description pins the map down: at most one map meets it. */
  lemma SpecUnique(f: Filter, units: seq<Unit>, m1: map<string, Hit>, m2: map<string, Hit>)
    requires HitsSpec(f, units, m1) && HitsSpec(f, units, m2)
    ensures m1 == m2
  {
    SpecKeysAgree(f, units, m1, m2);
    SpecValuesAgree(f, units, m1, m2);
    MapsAgree(m1, m2);
  }

  lemma SpecValuesAgree(f: Filter, units: seq<Unit>, m1: map<string, Hit>, m2: map<string, Hit>)
    requires HitsSpec(f, units, m1) && HitsSpec(f, units, m2)
    requires m1.Keys == m2.Keys
    ensures forall q :: q in m1 ==> m1[q] == m2[q]
  {
    forall q | q in m1
      ensures m1[q] == m2[q]
    {
      SpecScoresAgree(f, units, m1, m2, q);
      SpecAltsAgree(f, units, m1, m2, q);
    }
  }

  lemma MapsAgree<K, V>(m1: map<K, V>, m2: map<K, V>)
    requires m1.Keys == m2.Keys
    requires forall k :: k in m1 ==> m1[k] == m2[k]
    ensures m1 == m2
  {
  }

  /** Whatever is stored for a read on a cluster is one of that read's
      unmasked alignments to that cluster with identity at least the
      minimum, and it has the stored (maximal) score. */
  lemma StoredAlignmentPassedFilter(f: Filter, units: seq<Unit>, q: string, c: ClusterId)
    requires AllAdmissible(f, units)
    requires q in Fold(f, units) && c in Fold(f, units)[q].alts
    ensures exists i :: (0 <= i < |units| && units[i] == Unit(c, Fold(f, units)[q].alts[c])
      && QueryOf(units[i]) == q && !Masked(f, units[i]) && PercId(units[i].group) >= f.pidMin
      && Score(units[i].group) == Fold(f, units)[q].score)
  {
    FoldMeetsSpec(f, units);
    var best := Fold(f, units);
    var i :| LastAttains(f, units, i, q, c, best[q].score) && units[i].group == best[q].alts[c];
    assert units[i] == Unit(c, best[q].alts[c]);
  }

  /** The loop of `find_best_hits` over the units in visiting order. */
  method FindBestHits(f: Filter, units: seq<Unit>) returns (best: map<string, Hit>)
    requires AllAdmissible(f, units)
    ensures HitsSpec(f, units, best)
  {
    best := map[];
    var k := 0;
    while k < |units|
      invariant 0 <= k <= |units|
      invariant best == Fold(f, units[..k])
    {
      assert units[..k + 1][..k] == units[..k];
      best := Step(f, best, units[k]);
      k := k + 1;
    }
    assert units[..k] == units;
    FoldMeetsSpec(f, units);
  }
}
