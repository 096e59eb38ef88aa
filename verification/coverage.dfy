/** Pangene coverage and copy number for one genome cluster.
    `compute_pangenome_coverage` adds, for every bedtools coverage record,
    reads x read length / gene length to the record's pangene, starting from
    an empty `defaultdict(float)`; `compute_phyeco_cov` reads the coverage of
    the universal marker genes (the baseline is their median, taken here as
    an input); `write_pangene_coverage` emits one row per pangene in
    ascending id with the copy number coverage / baseline, or 0 when the
    baseline is not positive. Python floats are modelled as exact reals. */
module Coverage {
  import opened Strings

  /** The fields of one bedtools coverage record that the sum uses. */
  datatype BedRecord = BedRecord(pangene: string, readCount: int, geneLength: int)

  /** Per-pangene coverage, the `pangene_to_cov` dictionary. */
  type CovMap = map<string, real>

  /** The source divides by the gene length; a zero length has no real
      quotient. */
  predicate Measured(recs: seq<BedRecord>)
  {
    forall i :: 0 <= i < |recs| ==> recs[i].geneLength != 0
  }

  /** `r['reads'] * read_length / r['gene_length']`. */
  function Contribution(rec: BedRecord, readLength: real): real
    requires rec.geneLength != 0
  {
    rec.readCount as real * readLength / rec.geneLength as real
  }

  /** A `defaultdict(float)` lookup: a missing pangene reads as 0.0. */
  function Get(cov: CovMap, p: string): real
  {
    if p in cov then cov[p] else 0.0
  }

  /** `pangene_to_cov[pangene_id] += coverage` for one record: the record's
      pangene becomes present and gains the record's contribution; every
      other pangene keeps its coverage. */
  function AddRecord(cov: CovMap, rec: BedRecord, readLength: real): (r: CovMap)
    requires rec.geneLength != 0
    ensures r.Keys == cov.Keys + {rec.pangene}
    ensures forall p :: Get(r, p) == Get(cov, p) + Share(rec, p, readLength)
  {
    cov[rec.pangene := Get(cov, rec.pangene) + Contribution(rec, readLength)]
  }

  /** The records of one batch added in order: nothing present is dropped,
      and every pangene of the batch ends up present. */
  function Accumulate(cov: CovMap, recs: seq<BedRecord>, readLength: real): (r: CovMap)
    requires Measured(recs)
    ensures cov.Keys <= r.Keys
    ensures forall i :: 0 <= i < |recs| ==> recs[i].pangene in r
  {
    if |recs| == 0 then cov
    else
      var prefix := recs[..|recs| - 1];
      assert forall i :: 0 <= i < |prefix| ==> prefix[i] == recs[i];
      AddRecord(Accumulate(cov, prefix, readLength), recs[|recs| - 1], readLength)
  }

  /** The reference definition: the summed contribution of the records for
      pangene `p`. */
  function Total(recs: seq<BedRecord>, p: string, readLength: real): real
    requires Measured(recs)
  {
    if |recs| == 0 then 0.0
    else
      Total(recs[..|recs| - 1], p, readLength) + Share(recs[|recs| - 1], p, readLength)
  }

  /** A pangene present in a batch of records. */
  predicate Mentions(recs: seq<BedRecord>, p: string)
  {
    exists i :: 0 <= i < |recs| && recs[i].pangene == p
  }

  // ---------------------------------------------------------------------
  // The accumulation in closed form
  // ---------------------------------------------------------------------

  /** After adding a batch, the pangenes present are the earlier ones plus
      those the batch mentions, and each holds its earlier coverage plus the
      sum of the batch's contributions to it. */
  lemma {:induction false} AccumulateClosedForm(cov: CovMap, recs: seq<BedRecord>, readLength: real)
    requires Measured(recs)
    ensures forall p :: p in Accumulate(cov, recs, readLength) <==> p in cov || Mentions(recs, p)
    ensures forall p :: Get(Accumulate(cov, recs, readLength), p) == Get(cov, p) + Total(recs, p, readLength)
  {
    if |recs| > 0 {
      var n := |recs| - 1;
      var prefix := recs[..n];
      AccumulateClosedForm(cov, prefix, readLength);
      forall p
        ensures p in Accumulate(cov, recs, readLength) <==> p in cov || Mentions(recs, p)
      {
        if Mentions(prefix, p) {
          var i :| 0 <= i < |prefix| && prefix[i].pangene == p;
          assert recs[i] == prefix[i];
        }
        if Mentions(recs, p) && p != recs[n].pangene {
          var i :| 0 <= i < |recs| && recs[i].pangene == p;
          assert prefix[i] == recs[i];
        }
      }
    }
  }

  /** Splitting a batch splits every pangene's total. */
  lemma {:induction false} TotalAppend(a: seq<BedRecord>, b: seq<BedRecord>, p: string, readLength: real)
    requires Measured(a) && Measured(b)
    ensures Measured(a + b)
    ensures Total(a + b, p, readLength) == Total(a, p, readLength) + Total(b, p, readLength)
  {
    if |b| > 0 {
      var n := |b| - 1;
      TotalAppend(a, b[..n], p, readLength);
      assert (a + b)[..|a + b| - 1] == a + b[..n];
    } else {
      assert a + b == a;
    }
  }

  /** The share of one record in pangene `p`'s total. */
  function Share(rec: BedRecord, p: string, readLength: real): real
    requires rec.geneLength != 0
  {
    if rec.pangene == p then Contribution(rec, readLength) else 0.0
  }

  /** Taking one record out of a batch takes its share out of the total. */
  lemma TotalWithout(b: seq<BedRecord>, k: nat, p: string, readLength: real)
    requires Measured(b) && k < |b|
    ensures Measured(b[..k] + b[k + 1..])
    ensures Total(b, p, readLength) == Total(b[..k] + b[k + 1..], p, readLength) + Share(b[k], p, readLength)
  {
    var b1, x, b2 := b[..k], b[k], b[k + 1..];
    assert b == b1 + [x] + b2;
    TotalAppend(b1, [x], p, readLength);
    TotalAppend(b1 + [x], b2, p, readLength);
    TotalAppend(b1, b2, p, readLength);
    assert [x][..0] == [];
  }

  /** Taking the same element out of two permutations of each other leaves
      permutations of each other. */
  lemma MultisetWithout(a: seq<BedRecord>, b: seq<BedRecord>, k: nat)
    requires |a| > 0 && k < |b| && b[k] == a[|a| - 1]
    requires multiset(a) == multiset(b)
    ensures multiset(a[..|a| - 1]) == multiset(b[..k] + b[k + 1..])
  {
    var n, x := |a| - 1, b[k];
    var b1, b2 := b[..k], b[k + 1..];
    assert a == a[..n] + [x];
    assert b == b1 + [x] + b2;
    var ma, mr := multiset(a[..n]), multiset(b1 + b2);
    assert multiset(a) == ma + multiset{x};
    assert multiset(b) == multiset(b1) + multiset{x} + multiset(b2);
    assert mr == multiset(b1) + multiset(b2);
    forall y
      ensures ma[y] == mr[y]
    {
      assert (ma + multiset{x})[y] == (mr + multiset{x})[y];
    }
  }

  /** A pangene's total does not depend on the order of the records. */
  lemma {:induction false} TotalPermutation(a: seq<BedRecord>, b: seq<BedRecord>, p: string, readLength: real)
    requires Measured(a) && Measured(b)
    requires multiset(a) == multiset(b)
    ensures Total(a, p, readLength) == Total(b, p, readLength)
    decreases |a|
  {
    if |a| == 0 {
      assert |b| == |multiset(b)| == 0;
    } else {
      var n := |a| - 1;
      assert a[n] in multiset(b);
      var k :| 0 <= k < |b| && b[k] == a[n];
      MultisetWithout(a, b, k);
      TotalWithout(b, k, p, readLength);
      TotalPermutation(a[..n], b[..k] + b[k + 1..], p, readLength);
    }
  }

  /** Maps that agree on keys and on every lookup are equal. */
  lemma SameLookups(m1: CovMap, m2: CovMap)
    requires forall p :: p in m1 <==> p in m2
    requires forall p :: Get(m1, p) == Get(m2, p)
    ensures m1 == m2
  {
    forall p | p in m1
      ensures m1[p] == m2[p]
    {
      assert Get(m1, p) == Get(m2, p);
    }
  }

  /** Over exact reals, a batch's records may be added in any order. */
  lemma RecordOrderIrrelevant(cov: CovMap, a: seq<BedRecord>, b: seq<BedRecord>, readLength: real)
    requires Measured(a) && Measured(b)
    requires multiset(a) == multiset(b)
    ensures Accumulate(cov, a, readLength) == Accumulate(cov, b, readLength)
  {
    AccumulateClosedForm(cov, a, readLength);
    AccumulateClosedForm(cov, b, readLength);
    forall p
      ensures Mentions(a, p) <==> Mentions(b, p)
    {
      if Mentions(a, p) {
        var i :| 0 <= i < |a| && a[i].pangene == p;
        assert a[i] in multiset(b);
      }
      if Mentions(b, p) {
        var i :| 0 <= i < |b| && b[i].pangene == p;
        assert b[i] in multiset(a);
      }
    }
    forall p
      ensures Total(a, p, readLength) == Total(b, p, readLength)
    {
      TotalPermutation(a, b, p, readLength);
    }
    SameLookups(Accumulate(cov, a, readLength), Accumulate(cov, b, readLength));
  }

  /** Adding one batch after another is adding their records in sequence,
      so together with the lemma above the batches may come in any order. */
  lemma {:induction false} BatchesCompose(cov: CovMap, a: seq<BedRecord>, b: seq<BedRecord>, readLength: real)
    requires Measured(a) && Measured(b)
    ensures Measured(a + b)
    ensures Accumulate(Accumulate(cov, a, readLength), b, readLength) == Accumulate(cov, a + b, readLength)
  {
    if |b| == 0 {
      assert a + b == a;
    } else {
      var n := |b| - 1;
      BatchesCompose(cov, a, b[..n], readLength);
      assert (a + b)[..|a + b| - 1] == a + b[..n];
      assert (a + b)[|a + b| - 1] == b[n];
    }
  }

  /** With a non-negative read length and non-negative read counts over
      positive gene lengths, no coverage goes negative. */
  lemma {:induction false} CoverageNonNegative(cov: CovMap, recs: seq<BedRecord>, readLength: real)
    requires Measured(recs) && readLength >= 0.0
    requires forall p :: p in cov ==> cov[p] >= 0.0
    requires forall i :: 0 <= i < |recs| ==> recs[i].readCount >= 0 && recs[i].geneLength > 0
    ensures forall p :: p in Accumulate(cov, recs, readLength) ==> Accumulate(cov, recs, readLength)[p] >= 0.0
  {
    if |recs| > 0 {
      var n := |recs| - 1;
      CoverageNonNegative(cov, recs[..n], readLength);
      var r := recs[n];
      assert r.readCount as real * readLength >= 0.0;
      QuotientNonNegative(r.readCount as real * readLength, r.geneLength as real);
    }
  }

  lemma QuotientNonNegative(x: real, y: real)
    requires x >= 0.0 && y > 0.0
    ensures x / y >= 0.0
  {
  }

  // ---------------------------------------------------------------------
  // The marker baseline
  // ---------------------------------------------------------------------

  /** The universal single-copy marker families the baseline uses. */
  const Markers: set<string> := {
    "B000039", "B000041", "B000062", "B000063", "B000065", "B000071", "B000079",
    "B000080", "B000081", "B000082", "B000086", "B000096", "B000103", "B000114"}

  /** One `pangene<TAB>phyeco_id` line of `pangene_to_phyeco.gz`, after its
      header. */
  datatype PhyecoLine = PhyecoLine(pangene: string, phyecoId: string)

  /** The coverages the median is taken over, one per marker line in file
      order, and the coverage map afterwards: the `defaultdict` lookup
      inserts 0.0 for a marker pangene without coverage. */
  function MarkerCoverages(cov: CovMap, table: seq<PhyecoLine>): (r: (seq<real>, CovMap))
    ensures |r.0| <= |table|
    ensures cov.Keys <= r.1.Keys
    ensures forall p :: p in cov ==> r.1[p] == cov[p]
  {
    if |table| == 0 then ([], cov)
    else
      var (covs, m) := MarkerCoverages(cov, table[..|table| - 1]);
      var line := table[|table| - 1];
      if line.phyecoId in Markers then (covs + [Get(m, line.pangene)], m[line.pangene := Get(m, line.pangene)])
      else (covs, m)
  }

  /** The marker lines of a table, in order. */
  function MarkerLines(table: seq<PhyecoLine>): (ms: seq<PhyecoLine>)
    ensures forall i :: 0 <= i < |ms| ==> ms[i].phyecoId in Markers
  {
    if |table| == 0 then []
    else if table[|table| - 1].phyecoId in Markers then MarkerLines(table[..|table| - 1]) + [table[|table| - 1]]
    else MarkerLines(table[..|table| - 1])
  }

  /** The baseline reads the coverage of each marker line's pangene (0.0 if
      none), in file order; afterwards every marker pangene is present, no
      other pangene is added, and no coverage changes. */
  lemma MarkerCoveragesSpec(cov: CovMap, table: seq<PhyecoLine>)
    ensures |MarkerCoverages(cov, table).0| == |MarkerLines(table)|
    ensures forall j :: 0 <= j < |MarkerLines(table)| ==>
      MarkerCoverages(cov, table).0[j] == Get(cov, MarkerLines(table)[j].pangene)
    ensures forall p :: p in MarkerCoverages(cov, table).1 <==>
      p in cov || exists j :: 0 <= j < |MarkerLines(table)| && MarkerLines(table)[j].pangene == p
    ensures forall p :: Get(MarkerCoverages(cov, table).1, p) == Get(cov, p)
  {
    MarkerValues(cov, table);
    MarkerKeys(cov, table);
  }

  /** The values read, and the lookups afterwards. */
  lemma {:induction false} MarkerValues(cov: CovMap, table: seq<PhyecoLine>)
    ensures |MarkerCoverages(cov, table).0| == |MarkerLines(table)|
    ensures forall j :: 0 <= j < |MarkerLines(table)| ==>
      MarkerCoverages(cov, table).0[j] == Get(cov, MarkerLines(table)[j].pangene)
    ensures forall p :: Get(MarkerCoverages(cov, table).1, p) == Get(cov, p)
  {
    if |table| > 0 {
      var n := |table| - 1;
      MarkerValues(cov, table[..n]);
      if table[n].phyecoId in Markers {
        assert MarkerLines(table) == MarkerLines(table[..n]) + [table[n]];
      } else {
        assert MarkerLines(table) == MarkerLines(table[..n]);
      }
    }
  }

  /** The pangenes present afterwards. */
  lemma {:induction false} MarkerKeys(cov: CovMap, table: seq<PhyecoLine>)
    ensures forall p :: p in MarkerCoverages(cov, table).1 <==>
      p in cov || exists j :: 0 <= j < |MarkerLines(table)| && MarkerLines(table)[j].pangene == p
  {
    if |table| > 0 {
      var n := |table| - 1;
      var prefix := table[..n];
      MarkerKeys(cov, prefix);
      var ms := MarkerLines(prefix);
      var line := table[n];
      if line.phyecoId in Markers {
        var ms' := MarkerLines(table);
        assert ms' == ms + [line];
        forall p
          ensures p in MarkerCoverages(cov, table).1 <==>
            p in cov || exists j :: 0 <= j < |ms'| && ms'[j].pangene == p
        {
          if exists j :: 0 <= j < |ms| && ms[j].pangene == p {
            var j :| 0 <= j < |ms| && ms[j].pangene == p;
            assert ms'[j] == ms[j];
          }
          if p != line.pangene && exists j :: 0 <= j < |ms'| && ms'[j].pangene == p {
            var j :| 0 <= j < |ms'| && ms'[j].pangene == p;
            assert j < |ms| && ms[j] == ms'[j];
          }
          if p == line.pangene {
            assert ms'[|ms|] == line;
          }
        }
      } else {
        assert MarkerLines(table) == ms;
      }
    }
  }

  // ---------------------------------------------------------------------
  // Copy number and output rows
  // ---------------------------------------------------------------------

  /** `cov/phyeco_cov if phyeco_cov > 0 else 0`: never a division by zero.
      Scaled back by a positive baseline the copy number is the coverage; a
      baseline that is not positive gives copy number 0; the copy number has
      the sign of the coverage. */
  function CopyNumber(cov: real, baseline: real): (cn: real)
    ensures baseline > 0.0 ==> cn * baseline == cov
    ensures baseline <= 0.0 ==> cn == 0.0
    ensures cov >= 0.0 ==> cn >= 0.0
    ensures baseline > 0.0 && cov == baseline ==> cn == 1.0
  {
    if baseline > 0.0 then
      Quotient(cov, baseline);
      cov / baseline
    else 0.0
  }

  /** Division by a positive number, undone by multiplication. */
  lemma Quotient(x: real, t: real)
    requires t > 0.0
    ensures (x / t) * t == x
    ensures x >= 0.0 ==> x / t >= 0.0
    ensures x == t ==> x / t == 1.0
  {
    var q := x / t;
    assert q * t == x;
    assert x == t ==> (q - 1.0) * t == 0.0;
  }

  /** One output row: pangene, coverage, copy number. */
  datatype Row = Row(pangene: string, cov: real, copyNumber: real)

  /** Pangene ids strictly ascending. */
  predicate Ascending(rows: seq<Row>)
  {
    forall i, j :: 0 <= i < j < |rows| ==> StrLess(rows[i].pangene, rows[j].pangene)
  }

  /** The least id of a non-empty set, found by a scan. */
  method SmallestKey(s: set<string>) returns (m: string)
    requires s != {}
    ensures m in s
    ensures forall x :: x in s && x != m ==> StrLess(m, x)
  {
    m :| m in s;
    var seen := {m};
    var rest := s - {m};
    while rest != {}
      invariant seen + rest == s && seen !! rest
      invariant m in seen
      invariant forall x :: x in seen && x != m ==> StrLess(m, x)
      decreases |rest|
    {
      var x :| x in rest;
      if StrLess(x, m) {
        forall y | y in seen && y != x
          ensures StrLess(x, y)
        {
          if y != m {
            StrLessTransitive(x, m, y);
          }
        }
        m := x;
      } else if x != m {
        StrLessTotal(x, m);
      }
      seen := seen + {x};
      rest := rest - {x};
    }
  }

  /** The state of `write_pangene_coverage` part way: the rows so far are
      ascending, are correct for their pangenes, and precede every pangene
      still to come; together with those, they cover the map. */
  ghost predicate RowsSoFar(cov: CovMap, baseline: real, rows: seq<Row>, rest: set<string>)
  {
    && rest <= cov.Keys
    && Ascending(rows)
    && (forall i :: 0 <= i < |rows| ==> rows[i].pangene in cov && rows[i].pangene !in rest)
    && (forall p :: p in cov && p !in rest ==> exists i :: 0 <= i < |rows| && rows[i].pangene == p)
    && (forall i, p :: 0 <= i < |rows| && p in rest ==> StrLess(rows[i].pangene, p))
    && |rows| + |rest| == |cov|
    && (forall i :: 0 <= i < |rows| ==>
      rows[i].cov == cov[rows[i].pangene] && rows[i].copyNumber == CopyNumber(rows[i].cov, baseline))
  }

  /** Emitting the least pangene still to come keeps the state. */
  lemma RowsStep(cov: CovMap, baseline: real, rows: seq<Row>, rest: set<string>, p: string)
    requires RowsSoFar(cov, baseline, rows, rest)
    requires p in rest && forall x :: x in rest && x != p ==> StrLess(p, x)
    ensures RowsSoFar(cov, baseline, rows + [Row(p, cov[p], CopyNumber(cov[p], baseline))], rest - {p})
  {
    var rows' := rows + [Row(p, cov[p], CopyNumber(cov[p], baseline))];
    var rest' := rest - {p};
    assert rows'[|rows|].pangene == p;
    forall i, j | 0 <= i < j < |rows'|
      ensures StrLess(rows'[i].pangene, rows'[j].pangene)
    {
      if j < |rows| {
        assert rows'[i] == rows[i] && rows'[j] == rows[j];
      } else {
        assert rows'[i] == rows[i];
      }
    }
    forall i, x | 0 <= i < |rows'| && x in rest'
      ensures StrLess(rows'[i].pangene, x)
    {
      if i < |rows| {
        assert rows'[i] == rows[i];
      }
    }
    forall q | q in cov && q !in rest'
      ensures exists i :: 0 <= i < |rows'| && rows'[i].pangene == q
    {
      if q != p {
        var i :| 0 <= i < |rows| && rows[i].pangene == q;
        assert rows'[i] == rows[i];
      }
    }
    forall i | 0 <= i < |rows'|
      ensures rows'[i].pangene in cov && rows'[i].pangene !in rest'
      ensures rows'[i].cov == cov[rows'[i].pangene] && rows'[i].copyNumber == CopyNumber(rows'[i].cov, baseline)
    {
      if i < |rows| {
        assert rows'[i] == rows[i];
      }
    }
    assert |rest'| == |rest| - 1;
  }

  /** `write_pangene_coverage`: one row per pangene, ascending, each with its
      coverage and copy number. */
  method CoverageRows(cov: CovMap, baseline: real) returns (rows: seq<Row>)
    ensures Ascending(rows)
    ensures forall i, j :: 0 <= i < j < |rows| ==> rows[i].pangene != rows[j].pangene
    ensures forall i :: 0 <= i < |rows| ==> rows[i].pangene in cov
    ensures forall p :: p in cov ==> exists i :: 0 <= i < |rows| && rows[i].pangene == p
    ensures |rows| == |cov|
    ensures forall i :: 0 <= i < |rows| ==>
      rows[i].cov == cov[rows[i].pangene] && rows[i].copyNumber == CopyNumber(rows[i].cov, baseline)
  {
    rows := [];
    var rest := cov.Keys;
    while rest != {}
      invariant RowsSoFar(cov, baseline, rows, rest)
      decreases |rest|
    {
      var p := SmallestKey(rest);
      RowsStep(cov, baseline, rows, rest, p);
      rows := rows + [Row(p, cov[p], CopyNumber(cov[p], baseline))];
      rest := rest - {p};
    }
    forall i, j | 0 <= i < j < |rows|
      ensures rows[i].pangene != rows[j].pangene
    {
      StrLessIrreflexive(rows[i].pangene);
    }
  }
}
