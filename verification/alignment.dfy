/** Alignment records as the aligner emits them, the grouping of a record
    stream into reads (`fetch_reads`), and the two per-read measures the
    best-hit search ranks by (`compute_aln_score`, `compute_perc_id`). */
module Alignment {
  import opened Results

  /** One alignment record. `editDistance` is the `NM` tag, `None` on a
      record that carries none (an unaligned mate, say); `scaffold` is the
      reference name already reduced to its scaffold id. */
  datatype Record = Record(
    queryName: string,
    isPaired: bool,
    mateUnmapped: bool,
    isRead1: bool,
    isRead2: bool,
    queryLength: nat,
    editDistance: Option<nat>,
    scaffold: string)

  /** A read: one record, or the two records of a mate pair. */
  type Group = seq<Record>

  // ---------------------------------------------------------------------
  // fetch_reads
  // ---------------------------------------------------------------------

  /** A record that forms a read on its own: unpaired, or a mate whose partner
      did not map (flagged read 1 or read 2). */
  predicate Solo(r: Record)
  {
    || !r.isPaired
    || (r.mateUnmapped && r.isRead1)
    || (r.mateUnmapped && r.isRead2)
  }

  /** The shapes `fetch_reads` produces. */
  predicate WellShaped(g: Group)
  {
    || (|g| == 1 && Solo(g[0]))
    || (|g| == 2 && !Solo(g[0]) && !Solo(g[1]))
  }

  /** The generator with its one-slot buffer `pending` made explicit. */
  function FetchFrom(recs: seq<Record>, pending: seq<Record>): (groups: seq<Group>)
    requires |pending| <= 1
    requires forall k :: 0 <= k < |pending| ==> !Solo(pending[k])
    ensures forall i :: 0 <= i < |groups| ==> WellShaped(groups[i])
    decreases |recs|
  {
    if |recs| == 0 then []
    else if Solo(recs[0]) then [[recs[0]]] + FetchFrom(recs[1..], pending)
    else if |pending| == 1 then [pending + [recs[0]]] + FetchFrom(recs[1..], [])
    else FetchFrom(recs[1..], [recs[0]])
  }

  /** `fetch_reads`: the reads of one alignment file, in emission order.
      Each is a lone solo record or a pair of mates; the solo records come
      out alone in input order, and the other records in consecutive pairs,
      in input order, save an unmatched last one. */
  function FetchReads(recs: seq<Record>): (groups: seq<Group>)
    ensures forall i :: 0 <= i < |groups| ==> WellShaped(groups[i])
    ensures Singles(groups) == SoloRecords(recs)
    ensures Pairs(groups) + LeftoverFrom(recs, []) == PairableRecords(recs)
  {
    FetchSingles(recs, []);
    FetchPairs(recs, []);
    assert [] + PairableRecords(recs) == PairableRecords(recs);
    FetchFrom(recs, [])
  }

  /** What is still in the buffer when the stream ends; it is never emitted. */
  function LeftoverFrom(recs: seq<Record>, pending: seq<Record>): seq<Record>
    requires |pending| <= 1
    decreases |recs|
  {
    if |recs| == 0 then pending
    else if Solo(recs[0]) then LeftoverFrom(recs[1..], pending)
    else if |pending| == 1 then LeftoverFrom(recs[1..], [])
    else LeftoverFrom(recs[1..], [recs[0]])
  }

  function SoloRecords(recs: seq<Record>): seq<Record>
  {
    if |recs| == 0 then []
    else (if Solo(recs[0]) then [recs[0]] else []) + SoloRecords(recs[1..])
  }

  function PairableRecords(recs: seq<Record>): seq<Record>
  {
    if |recs| == 0 then []
    else (if Solo(recs[0]) then [] else [recs[0]]) + PairableRecords(recs[1..])
  }

  /** The records of the one-record groups, in order. */
  function Singles(groups: seq<Group>): seq<Record>
  {
    if |groups| == 0 then []
    else (if |groups[0]| == 1 then groups[0] else []) + Singles(groups[1..])
  }

  /** The records of the two-record groups, in order. */
  function Pairs(groups: seq<Group>): seq<Record>
  {
    if |groups| == 0 then []
    else (if |groups[0]| == 2 then groups[0] else []) + Pairs(groups[1..])
  }

  /** The solo records come out alone, in input order. */
  lemma {:induction false} FetchSingles(recs: seq<Record>, pending: seq<Record>)
    requires |pending| <= 1
    requires forall k :: 0 <= k < |pending| ==> !Solo(pending[k])
    ensures Singles(FetchFrom(recs, pending)) == SoloRecords(recs)
    decreases |recs|
  {
    if |recs| > 0 {
      var gs := FetchFrom(recs, pending);
      if Solo(recs[0]) {
        FetchSingles(recs[1..], pending);
        assert gs[1..] == FetchFrom(recs[1..], pending);
      } else if |pending| == 1 {
        FetchSingles(recs[1..], []);
        assert gs[1..] == FetchFrom(recs[1..], []);
      } else {
        FetchSingles(recs[1..], [recs[0]]);
      }
    }
  }

  /** The other records are paired with the next such record, in input
      order; only an odd one out, left in the buffer, is lost. */
  lemma {:induction false} FetchPairs(recs: seq<Record>, pending: seq<Record>)
    requires |pending| <= 1
    requires forall k :: 0 <= k < |pending| ==> !Solo(pending[k])
    ensures Pairs(FetchFrom(recs, pending)) + LeftoverFrom(recs, pending) == pending + PairableRecords(recs)
    decreases |recs|
  {
    if |recs| > 0 {
      var gs := FetchFrom(recs, pending);
      if Solo(recs[0]) {
        FetchPairs(recs[1..], pending);
        var rest := FetchFrom(recs[1..], pending);
        assert gs == [[recs[0]]] + rest;
        assert gs[1..] == rest;
        assert Pairs(gs) == Pairs(rest);
        assert PairableRecords(recs) == PairableRecords(recs[1..]);
      } else if |pending| == 1 {
        FetchPairs(recs[1..], []);
        var rest := FetchFrom(recs[1..], []);
        assert gs == [pending + [recs[0]]] + rest;
        assert gs[1..] == rest;
        assert Pairs(gs) == (pending + [recs[0]]) + Pairs(rest);
        assert PairableRecords(recs) == [recs[0]] + PairableRecords(recs[1..]);
        assert Pairs(rest) + LeftoverFrom(recs[1..], []) == PairableRecords(recs[1..]);
        calc {
          Pairs(gs) + LeftoverFrom(recs, pending);
          (pending + [recs[0]]) + Pairs(rest) + LeftoverFrom(recs[1..], []);
          (pending + [recs[0]]) + (Pairs(rest) + LeftoverFrom(recs[1..], []));
          pending + PairableRecords(recs);
        }
      } else {
        FetchPairs(recs[1..], [recs[0]]);
        assert pending == [];
      }
    }
  }

  /** The buffer holds at most one record at the end, and one exactly when
      the number of non-solo records plus the pending one is odd. */
  lemma {:induction false} LeftoverParity(recs: seq<Record>, pending: seq<Record>)
    requires |pending| <= 1
    ensures |LeftoverFrom(recs, pending)| <= 1
    ensures |LeftoverFrom(recs, pending)| == (|pending| + |PairableRecords(recs)|) % 2
    decreases |recs|
  {
    if |recs| > 0 {
      if Solo(recs[0]) {
        LeftoverParity(recs[1..], pending);
      } else if |pending| == 1 {
        LeftoverParity(recs[1..], []);
      } else {
        LeftoverParity(recs[1..], [recs[0]]);
      }
    }
  }

  /** The generator streams: one more record at the end of the input adds
      at most one read at the end of the output. A solo record comes out
      alone; any other record completes the buffered mate if there is one,
      and otherwise waits in the buffer and adds nothing. */
  lemma {:induction false} FetchFromSnoc(recs: seq<Record>, r: Record, pending: seq<Record>)
    requires |pending| <= 1
    requires forall k :: 0 <= k < |pending| ==> !Solo(pending[k])
    ensures FetchFrom(recs + [r], pending)
         == FetchFrom(recs, pending)
            + (if Solo(r) then [[r]]
               else if |LeftoverFrom(recs, pending)| == 1 then [LeftoverFrom(recs, pending) + [r]]
               else [])
    decreases |recs|
  {
    if |recs| == 0 {
      assert recs + [r] == [r];
      assert [r][1..] == [];
    } else {
      var tail := (if Solo(r) then [[r]]
                   else if |LeftoverFrom(recs, pending)| == 1 then [LeftoverFrom(recs, pending) + [r]]
                   else []);
      assert (recs + [r])[0] == recs[0];
      assert (recs + [r])[1..] == recs[1..] + [r];
      if Solo(recs[0]) {
        FetchFromSnoc(recs[1..], r, pending);
        assert FetchFrom(recs + [r], pending) == [[recs[0]]] + (FetchFrom(recs[1..], pending) + tail);
      } else if |pending| == 1 {
        FetchFromSnoc(recs[1..], r, []);
        assert FetchFrom(recs + [r], pending) == [pending + [recs[0]]] + (FetchFrom(recs[1..], []) + tail);
      } else {
        FetchFromSnoc(recs[1..], r, [recs[0]]);
      }
    }
  }

  /** `fetch_reads` emits its reads in stream order: reading one more
      record appends to the reads of the shorter stream, never reorders
      them. */
  lemma FetchReadsSnoc(recs: seq<Record>, r: Record)
    ensures FetchReads(recs + [r])
         == FetchReads(recs)
            + (if Solo(r) then [[r]]
               else if |LeftoverFrom(recs, [])| == 1 then [LeftoverFrom(recs, []) + [r]]
               else [])
  {
    FetchFromSnoc(recs, r, []);
  }

  /** Concatenating the reads does not always give back the stream: a solo
      record that arrives while a mate waits in the buffer is emitted first. */
  lemma SoloOvertakesBufferedMate(p1: Record, s: Record, p2: Record)
    requires !Solo(p1) && Solo(s) && !Solo(p2)
    ensures FetchReads([p1, s, p2]) == [[s], [p1, p2]]
  {
    assert [p1, s, p2][1..] == [s, p2];
    assert [s, p2][1..] == [p2];
    assert [p2][1..] == [];
    assert FetchFrom([p2], [p1]) == [[p1] + [p2]] + FetchFrom([], []);
    assert FetchFrom([s, p2], [p1]) == [[s]] + FetchFrom([p2], [p1]);
    assert [p1] + [p2] == [p1, p2];
  }

  // ---------------------------------------------------------------------
  // compute_aln_score and compute_perc_id
  // ---------------------------------------------------------------------

  /** Both mates count: the first record is paired and its mate mapped. */
  predicate BothMates(g: Group)
    requires |g| >= 1
  {
    g[0].isPaired && !g[0].mateUnmapped
  }

  /** The record has an `NM` tag; `dict(aln.tags)['NM']` raises `KeyError`
      otherwise. */
  predicate Tagged(r: Record)
  {
    r.editDistance.Some?
  }

  predicate AllTagged(rs: seq<Record>)
  {
    forall i :: 0 <= i < |rs| ==> Tagged(rs[i])
  }

  /** The scoring functions index the second record only for a full pair,
      and read the `NM` tag of every record they index. */
  predicate Scorable(g: Group)
  {
    && |g| >= 1
    && Tagged(g[0])
    && (BothMates(g) ==> |g| >= 2 && Tagged(g[1]))
  }

  /** The records a read's score is computed from. */
  function UsedRecords(g: Group): (rs: seq<Record>)
    requires Scorable(g)
    ensures AllTagged(rs)
  {
    if BothMates(g) then g[..2] else g[..1]
  }

  function SumLength(rs: seq<Record>): nat
  {
    if |rs| == 0 then 0 else rs[0].queryLength + SumLength(rs[1..])
  }

  /** The `NM` edit distance of a tagged record. */
  function Edit(r: Record): nat
    requires Tagged(r)
  {
    r.editDistance.value
  }

  function SumEdit(rs: seq<Record>): nat
    requires AllTagged(rs)
  {
    if |rs| == 0 then 0 else Edit(rs[0]) + SumEdit(rs[1..])
  }

  /** Aligned length of a read: one record's query length, or both mates'. */
  function ReadLength(g: Group): nat
    requires Scorable(g)
  {
    SumLength(UsedRecords(g))
  }

  /** The sums over the used records, unfolded. */
  lemma UsedSums(g: Group)
    requires Scorable(g)
    ensures BothMates(g) ==> SumLength(UsedRecords(g)) == g[0].queryLength + g[1].queryLength
    ensures BothMates(g) ==> SumEdit(UsedRecords(g)) == Edit(g[0]) + Edit(g[1])
    ensures !BothMates(g) ==> SumLength(UsedRecords(g)) == g[0].queryLength
    ensures !BothMates(g) ==> SumEdit(UsedRecords(g)) == Edit(g[0])
  {
    if BothMates(g) {
      var u := UsedRecords(g);
      assert u == [g[0], g[1]];
      assert u[1..] == [g[1]];
      assert u[1..][1..] == [];
      assert SumLength(u[1..]) == g[1].queryLength;
      assert SumEdit(u[1..]) == Edit(g[1]);
    } else {
      assert g[..1][1..] == [];
    }
  }

  /** Record score: query length minus the `NM` edit distance. */
  function RecordScore(r: Record): int
    requires Tagged(r)
  {
    r.queryLength - Edit(r)
  }

  /** `compute_aln_score`: length minus edit distance over the records that
      make up the read. */
  function Score(g: Group): (score: int)
    requires Scorable(g)
    ensures score == SumLength(UsedRecords(g)) - SumEdit(UsedRecords(g))
  {
    UsedSums(g);
    if !g[0].isPaired then RecordScore(g[0])
    else if g[0].mateUnmapped then RecordScore(g[0])
    else RecordScore(g[0]) + RecordScore(g[1])
  }

  /** `compute_perc_id`: `100 * (length - edit) / length`, dividing in
      floating point; a zero length would raise `ZeroDivisionError`. */
  function PercId(g: Group): (pid: real)
    requires Scorable(g) && ReadLength(g) > 0
    ensures pid <= 100.0
    ensures pid >= 0.0 <==> SumEdit(UsedRecords(g)) <= ReadLength(g)
  {
    var (length, edit) :=
      if !g[0].isPaired then (g[0].queryLength, Edit(g[0]))
      else if g[0].mateUnmapped then (g[0].queryLength, Edit(g[0]))
      else (g[0].queryLength + g[1].queryLength, Edit(g[0]) + Edit(g[1]));
    UsedSums(g);
    assert length == ReadLength(g) && edit == SumEdit(UsedRecords(g));
    PercentBounds(length, edit);
    100.0 * (length - edit) as real / length as real
  }

  /** The percentage of a positive length left after the edits. */
  lemma PercentBounds(length: nat, edit: nat)
    requires length > 0
    ensures 100.0 * (length - edit) as real / length as real <= 100.0
    ensures 100.0 * (length - edit) as real / length as real >= 0.0 <==> edit <= length
  {
    var x, l := 100.0 * (length - edit) as real, length as real;
    var q := x / l;
    assert q * l == x;
    assert x <= 100.0 * l;
    assert (q - 100.0) * l == x - 100.0 * l;
    assert x >= 0.0 <==> edit <= length;
  }

  /** Percent identity is the score as a percentage of the aligned length. */
  lemma PercIdIsScoreOverLength(g: Group)
    requires Scorable(g) && ReadLength(g) > 0
    ensures PercId(g) == 100.0 * Score(g) as real / ReadLength(g) as real
  {
    UsedSums(g);
  }

  /** A pair of 100-base mates with 2 and 3 mismatches scores 195 at 97.5%. */
  lemma PairExample(name: string, scaffold: string)
    ensures
      var m1 := Record(name, true, false, true, false, 100, Some(2), scaffold);
      var m2 := Record(name, true, false, false, true, 100, Some(3), scaffold);
      Score([m1, m2]) == 195 && PercId([m1, m2]) == 97.5
  {
  }
}
