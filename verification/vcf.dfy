/** `parse_vcf`: one pileup site per VCF data line, turned into an allele
    call. The fixed VCF columns used are REF (column 4), ALT (column 5) and
    INFO (column 8), as laid out in section 1.4.1 of the VCF v4.2
    specification; the counts come from samtools' `I16` INFO tag, whose first
    four numbers are the forward and reverse reads supporting the reference
    and the forward and reverse reads supporting an alternate allele. */
module Vcf {
  import opened Results
  import opened Strings

  /** One output row. `None` is the source's `'NA'`. */
  datatype AlleleCall = AlleleCall(
    refId: string,
    refPos: string,
    refAllele: string,
    altAllele: Option<string>,
    consAllele: Option<string>,
    countAlleles: int,
    countRef: int,
    countAlt: int,
    depth: int,
    refFreq: Option<real>)

  /** Why a line cannot be read (each is an exception in the source). */
  datatype VcfError =
    | EmptyLine        // `line[0]` on an empty line: IndexError
    | TooFewColumns    // `r[4]` or `r[7]` missing: IndexError
    | MalformedInfo    // an INFO entry that is not `key=value`: ValueError
    | MissingI16       // `info['I16']`: KeyError
    | BadCount         // `int()` of an I16 number: ValueError

  /** The placeholder samtools lists for "no alternate allele". */
  const NoAlt: string := "<X>"

  // ---------------------------------------------------------------------
  // Alternate alleles
  // ---------------------------------------------------------------------

  /** `xs.remove(x)` guarded by `x in xs`: drop the first occurrence, if
      there is one. */
  function RemoveFirst(xs: seq<string>, x: string): seq<string>
  {
    if |xs| == 0 then []
    else if xs[0] == x then xs[1..]
    else [xs[0]] + RemoveFirst(xs[1..], x)
  }

  /** Without an occurrence, removal changes nothing. */
  lemma {:induction false} RemoveAbsent(xs: seq<string>, x: string)
    requires x !in xs
    ensures RemoveFirst(xs, x) == xs
  {
    if |xs| > 0 {
      RemoveAbsent(xs[1..], x);
      assert xs == [xs[0]] + xs[1..];
    }
  }

  /** With an occurrence, removal cuts out exactly the first one, at `k`,
      and keeps the order of the rest. */
  lemma {:induction false} RemoveFirstAt(xs: seq<string>, x: string) returns (k: nat)
    requires x in xs
    ensures k < |xs| && xs[k] == x && x !in xs[..k]
    ensures RemoveFirst(xs, x) == xs[..k] + xs[k + 1..]
  {
    if xs[0] == x {
      k := 0;
      assert xs[..0] == [];
    } else {
      assert x in xs[1..];
      var j := RemoveFirstAt(xs[1..], x);
      k := j + 1;
      assert xs[..k] == [xs[0]] + xs[1..][..j];
      assert xs[k + 1..] == xs[1..][j + 1..];
    }
  }

  /** Removal either changes nothing (no occurrence) or cuts out the first
      occurrence. */
  lemma RemoveFirstCases(xs: seq<string>, x: string)
    ensures x !in xs ==> RemoveFirst(xs, x) == xs
    ensures x in xs ==> exists k :: (0 <= k < |xs| && xs[k] == x && x !in xs[..k]
      && RemoveFirst(xs, x) == xs[..k] + xs[k + 1..])
  {
    if x in xs {
      var k := RemoveFirstAt(xs, x);
    } else {
      RemoveAbsent(xs, x);
    }
  }

  /** The listed alternate alleles, with the first placeholder removed. */
  function AltAlleles(altField: string): (r: seq<string>)
    ensures var xs := Split(altField, ',');
      NoAlt !in xs ==> r == xs
    ensures var xs := Split(altField, ',');
      NoAlt in xs ==> |r| == |xs| - 1 && exists k :: (0 <= k < |xs| && xs[k] == NoAlt && NoAlt !in xs[..k]
        && r == xs[..k] + xs[k + 1..])
  {
    RemoveFirstCases(Split(altField, ','), NoAlt);
    RemoveFirst(Split(altField, ','), NoAlt)
  }

  // ---------------------------------------------------------------------
  // INFO column
  // ---------------------------------------------------------------------

  /** Every INFO entry is `key=value` with exactly one `=`. */
  predicate WellFormedEntries(items: seq<string>)
  {
    forall i :: 0 <= i < |items| ==> |Split(items[i], '=')| == 2
  }

  function KeyOf(item: string): string
  {
    Split(item, '=')[0]
  }

  function ValueOf(item: string): string
    requires |Split(item, '=')| == 2
  {
    Split(item, '=')[1]
  }

  /** `dict([e.split('=') for e in items])`: later entries overwrite earlier
      ones with the same key. */
  function EntriesMap(items: seq<string>): map<string, string>
    requires WellFormedEntries(items)
  {
    if |items| == 0 then map[]
    else
      var last := items[|items| - 1];
      EntriesMap(items[..|items| - 1])[KeyOf(last) := ValueOf(last)]
  }

  /** The keys are the entries' keys. */
  lemma {:induction false} EntriesMapKeys(items: seq<string>)
    requires WellFormedEntries(items)
    ensures forall k :: k in EntriesMap(items) <==> exists i :: 0 <= i < |items| && KeyOf(items[i]) == k
  {
    if |items| > 0 {
      var n := |items| - 1;
      var prefix := items[..n];
      EntriesMapKeys(prefix);
      var m := EntriesMap(items);
      assert m == EntriesMap(prefix)[KeyOf(items[n]) := ValueOf(items[n])];
      forall k
        ensures k in m <==> exists i :: 0 <= i < |items| && KeyOf(items[i]) == k
      {
        if exists i :: 0 <= i < |items| && KeyOf(items[i]) == k {
          var i :| 0 <= i < |items| && KeyOf(items[i]) == k;
          if i < n {
            assert prefix[i] == items[i];
          }
        }
        if k in m && k != KeyOf(items[n]) {
          var i :| 0 <= i < |prefix| && KeyOf(prefix[i]) == k;
          assert items[i] == prefix[i];
        }
      }
    }
  }

  /** Each key maps to the value of the last entry carrying it. */
  lemma {:induction false} EntriesMapValues(items: seq<string>)
    requires WellFormedEntries(items)
    ensures forall k :: k in EntriesMap(items) ==> exists i :: (0 <= i < |items| && KeyOf(items[i]) == k
      && ValueOf(items[i]) == EntriesMap(items)[k] && forall j :: i < j < |items| ==> KeyOf(items[j]) != k)
  {
    if |items| > 0 {
      var n := |items| - 1;
      var prefix := items[..n];
      EntriesMapValues(prefix);
      var m := EntriesMap(items);
      assert m == EntriesMap(prefix)[KeyOf(items[n]) := ValueOf(items[n])];
      forall k | k in m
        ensures exists i :: (0 <= i < |items| && KeyOf(items[i]) == k
          && ValueOf(items[i]) == m[k] && forall j :: i < j < |items| ==> KeyOf(items[j]) != k)
      {
        if k == KeyOf(items[n]) {
          assert ValueOf(items[n]) == m[k];
        } else {
          var i :| (0 <= i < |prefix| && KeyOf(prefix[i]) == k
            && ValueOf(prefix[i]) == EntriesMap(prefix)[k] && forall j :: i < j < |prefix| ==> KeyOf(prefix[j]) != k);
          assert items[i] == prefix[i];
          forall j | i < j < |items|
            ensures KeyOf(items[j]) != k
          {
            if j < n {
              assert items[j] == prefix[j];
            }
          }
        }
      }
    }
  }

  /** The INFO column as a map, or `MalformedInfo`: the keys are exactly the
      entries' keys, each bound to the value of the last entry with it. */
  function ParseInfo(info: string): (r: Result<map<string, string>, VcfError>)
    ensures r.Success? <==> WellFormedEntries(Split(info, ';'))
    ensures r.Failure? ==> r.error == MalformedInfo
    ensures r.Success? ==> forall k :: k in r.value <==>
      exists i :: 0 <= i < |Split(info, ';')| && KeyOf(Split(info, ';')[i]) == k
    ensures r.Success? ==> forall k :: k in r.value ==> exists i :: (0 <= i < |Split(info, ';')|
      && KeyOf(Split(info, ';')[i]) == k && ValueOf(Split(info, ';')[i]) == r.value[k]
      && forall j :: i < j < |Split(info, ';')| ==> KeyOf(Split(info, ';')[j]) != k)
  {
    var items := Split(info, ';');
    if WellFormedEntries(items) then
      EntriesMapKeys(items);
      EntriesMapValues(items);
      Success(EntriesMap(items))
    else Failure(MalformedInfo)
  }

  /** `[int(x) for x in xs]`, or `BadCount`. */
  function ParseCounts(xs: seq<string>): (r: Result<seq<int>, VcfError>)
    ensures r.Success? <==> forall i :: 0 <= i < |xs| ==> ParseInt(xs[i]).Some?
    ensures r.Success? ==> |r.value| == |xs| && forall i :: 0 <= i < |xs| ==> Some(r.value[i]) == ParseInt(xs[i])
    ensures r.Failure? ==> r.error == BadCount
  {
    if |xs| == 0 then Success([])
    else
      match ParseInt(xs[0])
      case None => Failure(BadCount)
      case Some(v) =>
        match ParseCounts(xs[1..])
        case Failure(e) => Failure(e)
        case Success(rest) => Success([v] + rest)
  }

  // ---------------------------------------------------------------------
  // The allele call
  // ---------------------------------------------------------------------

  function SumInts(xs: seq<int>): int
  {
    if |xs| == 0 then 0 else xs[0] + SumInts(xs[1..])
  }

  lemma {:induction false} SumIntsAppend(a: seq<int>, b: seq<int>)
    ensures SumInts(a + b) == SumInts(a) + SumInts(b)
  {
    if |a| > 0 {
      SumIntsAppend(a[1..], b);
      assert (a + b)[1..] == a[1..] + b;
    } else {
      assert a + b == b;
    }
  }

  function Min(a: int, b: int): int
  {
    if a < b then a else b
  }

  /** The call for one site from its columns and its (at most four) `I16`
      counts: counts, consensus allele and reference frequency. */
  function CallAllele(refId: string, refPos: string, refAllele: string, altField: string, counts: seq<int>): (r: AlleleCall)
    requires |counts| <= 4
    ensures r.depth == SumInts(counts) && r.depth == r.countRef + r.countAlt
  {
    SumIntsAppend(counts[..Min(2, |counts|)], counts[Min(2, |counts|)..]);
    assert counts == counts[..Min(2, |counts|)] + counts[Min(2, |counts|)..];
    var alts := AltAlleles(altField);
    var countAlleles := 1 + |alts|;
    var split := Min(2, |counts|);
    var countRef := SumInts(counts[..split]);
    var countAlt := SumInts(counts[split..]);
    var depth := SumInts(counts);
    var cons :=
      if depth == 0 then None
      else if countRef >= countAlt then Some(refAllele)
      else if |alts| == 0 then None
      else Some(alts[0]);
    AlleleCall(refId, refPos, refAllele,
      if countAlleles > 1 then Some(alts[0]) else None,
      cons, countAlleles, countRef, countAlt, depth,
      if depth == 0 then None else Some(countRef as real / depth as real))
  }

  /** What a call promises: depth is reference plus alternate reads; the
      consensus is NA exactly when there are no reads or the alternate reads
      win with no alternate allele listed, the reference when it has at least
      as many reads, otherwise the first listed alternate; the frequency is NA
      exactly when there are no reads, else the reference share of the depth,
      within [0, 1] when the counts are non-negative. */
  lemma CallAlleleSpec(refId: string, refPos: string, refAllele: string, altField: string, counts: seq<int>)
    requires |counts| <= 4
    ensures var r := CallAllele(refId, refPos, refAllele, altField, counts);
      && r.refId == refId && r.refPos == refPos && r.refAllele == refAllele
      && r.countRef == SumInts(counts[..Min(2, |counts|)]) && r.countAlt == SumInts(counts[Min(2, |counts|)..])
      && (|counts| == 4 ==> r.countRef == counts[0] + counts[1] && r.countAlt == counts[2] + counts[3])
      && r.depth == r.countRef + r.countAlt
      && r.countAlleles == 1 + |AltAlleles(altField)| && r.countAlleles >= 1
      && (r.altAllele.Some? <==> r.countAlleles > 1)
      && (r.altAllele.Some? ==> r.altAllele.value == AltAlleles(altField)[0])
      && (r.consAllele.None? <==> r.depth == 0 || (r.countRef < r.countAlt && r.countAlleles == 1))
      && (r.depth != 0 && r.countRef >= r.countAlt ==> r.consAllele == Some(refAllele))
      && (r.depth != 0 && r.countRef < r.countAlt ==> r.consAllele == r.altAllele)
      && (r.refFreq.None? <==> r.depth == 0)
      && (r.refFreq.Some? ==> r.refFreq.value * r.depth as real == r.countRef as real)
      && ((forall i :: 0 <= i < |counts| ==> counts[i] >= 0) && r.refFreq.Some? ==>
        0.0 <= r.refFreq.value <= 1.0)
  {
    var r := CallAllele(refId, refPos, refAllele, altField, counts);
    var split := Min(2, |counts|);
    assert counts == counts[..split] + counts[split..];
    SumIntsAppend(counts[..split], counts[split..]);
    if |counts| == 4 {
      assert counts[..split] == [counts[0], counts[1]];
      assert counts[split..] == [counts[2], counts[3]];
      assert [counts[1]][1..] == [] && [counts[3]][1..] == [];
    }
    FreqBounds(r.countRef, r.countAlt, counts, split);
  }

  lemma {:induction false} SumNonNegative(xs: seq<int>)
    requires forall i :: 0 <= i < |xs| ==> xs[i] >= 0
    ensures SumInts(xs) >= 0
  {
    if |xs| > 0 {
      SumNonNegative(xs[1..]);
    }
  }

  lemma NonNegativeSums(counts: seq<int>, split: int)
    requires 0 <= split <= |counts|
    ensures (forall i :: 0 <= i < |counts| ==> counts[i] >= 0) ==>
      SumInts(counts[..split]) >= 0 && SumInts(counts[split..]) >= 0
  {
    if forall i :: 0 <= i < |counts| ==> counts[i] >= 0 {
      SumNonNegative(counts[..split]);
      SumNonNegative(counts[split..]);
    }
  }

  lemma FreqBounds(countRef: int, countAlt: int, counts: seq<int>, split: int)
    requires 0 <= split <= |counts|
    requires countRef == SumInts(counts[..split]) && countAlt == SumInts(counts[split..])
    ensures (forall i :: 0 <= i < |counts| ==> counts[i] >= 0) && countRef + countAlt != 0 ==>
      0.0 <= countRef as real / (countRef + countAlt) as real <= 1.0
  {
    NonNegativeSums(counts, split);
    if (forall i :: 0 <= i < |counts| ==> counts[i] >= 0) && countRef + countAlt != 0 {
      ShareBounds(countRef, countAlt);
    }
  }

  lemma ShareBounds(a: int, b: int)
    requires a >= 0 && b >= 0 && a + b != 0
    ensures 0.0 <= a as real / (a + b) as real <= 1.0
  {
    var t := (a + b) as real;
    var q := a as real / t;
    assert t > 0.0;
    assert q * t == a as real;
    assert (q - 1.0) * t == a as real - t;
  }

  /** The worked examples: 10/8 reference and 1/1 alternate reads call the
      reference at frequency 0.9; no reads call nothing; alternate reads with
      no listed alternate allele call nothing rather than fail. */
  lemma CallExamples()
    ensures var r := CallAllele("c", "5", "A", "T", [10, 8, 1, 1]);
      r.depth == 20 && r.countRef == 18 && r.countAlt == 2 && r.consAllele == Some("A")
      && r.refFreq == Some(0.9) && r.altAllele == Some("T") && r.countAlleles == 2
    ensures var r := CallAllele("c", "5", "A", "T", [0, 0, 0, 0]);
      r.consAllele.None? && r.refFreq.None?
    ensures var r := CallAllele("c", "5", "A", NoAlt, [0, 1, 2, 3]);
      r.consAllele.None? && r.altAllele.None? && r.countAlleles == 1 && r.refFreq == Some(0.1 / 0.6)
  {
    SplitWord("T", ',');
    SplitWord(NoAlt, ',');
    assert AltAlleles("T") == ["T"];
    assert AltAlleles(NoAlt) == [];
    CallAlleleSpec("c", "5", "A", "T", [10, 8, 1, 1]);
    CallAlleleSpec("c", "5", "A", "T", [0, 0, 0, 0]);
    CallAlleleSpec("c", "5", "A", NoAlt, [0, 1, 2, 3]);
  }

  // ---------------------------------------------------------------------
  // Lines and files
  // ---------------------------------------------------------------------

  /** The first four numbers of an `I16` tag value (fewer when it is
      shorter), or `BadCount`. */
  function I16Counts(i16: string): (r: Result<seq<int>, VcfError>)
    ensures r.Success? ==> |r.value| == Min(4, |Split(i16, ',')|)
    ensures r.Success? ==> forall i :: 0 <= i < |r.value| ==> Some(r.value[i]) == ParseInt(Split(i16, ',')[i])
    ensures r.Failure? ==> exists i :: 0 <= i < Min(4, |Split(i16, ',')|) && ParseInt(Split(i16, ',')[i]).None?
    ensures r.Failure? ==> r.error == BadCount
  {
    var nums := Split(i16, ',');
    var firsts := nums[..Min(4, |nums|)];
    assert |firsts| == Min(4, |nums|);
    assert forall i :: 0 <= i < |firsts| ==> firsts[i] == nums[i];
    ParseCounts(firsts)
  }

  /** The call for the whitespace-separated columns of a data line, or the
      error the source raises: ALT is read before INFO, so a short line fails
      on its missing column before its INFO is looked at. */
  function ParseColumns(cols: seq<string>): (r: Result<AlleleCall, VcfError>)
    ensures |cols| < 8 <==> r == Failure(TooFewColumns)
    ensures r.Success? ==> r.value.refId == cols[0] && r.value.refPos == cols[1] && r.value.refAllele == cols[3]
    ensures r.Success? ==> |cols| >= 8 && ParseInfo(cols[7]).Success? && "I16" in ParseInfo(cols[7]).value
    ensures |cols| >= 8 && ParseInfo(cols[7]).Failure? ==> r == Failure(MalformedInfo)
    ensures |cols| >= 8 && ParseInfo(cols[7]).Success? && "I16" !in ParseInfo(cols[7]).value ==> r == Failure(MissingI16)
    ensures |cols| >= 8 && ParseInfo(cols[7]).Success? && "I16" in ParseInfo(cols[7]).value ==>
      r == (var c := I16Counts(ParseInfo(cols[7]).value["I16"]);
        if c.Failure? then Failure(BadCount) else Success(CallAllele(cols[0], cols[1], cols[3], cols[4], c.value)))
    ensures r != Failure(EmptyLine)
  {
    if |cols| < 8 then Failure(TooFewColumns)
    else
      var info :- ParseInfo(cols[7]);
      if "I16" !in info then Failure(MissingI16)
      else
        var counts :- I16Counts(info["I16"]);
        Success(CallAllele(cols[0], cols[1], cols[3], cols[4], counts))
  }

  /** One line of the file: headers yield nothing, data lines their call. */
  function ParseLine(line: string): (r: Result<Option<AlleleCall>, VcfError>)
    ensures |line| == 0 <==> r == Failure(EmptyLine)
    ensures |line| > 0 && line[0] == '#' <==> r == Success(None)
    ensures IsDataLine(line) ==>
      r == (var c := ParseColumns(Fields(line)); if c.Success? then Success(Some(c.value)) else Failure(c.error))
  {
    if |line| == 0 then Failure(EmptyLine)
    else if line[0] == '#' then Success(None)
    else
      var call :- ParseColumns(Fields(line));
      assert call.refId == Fields(line)[0];
      Success(Some(call))
  }

  /** A data line is one that is neither empty nor a header. */
  predicate IsDataLine(line: string)
  {
    |line| > 0 && line[0] != '#'
  }

  /** The data lines, in file order. */
  function DataLines(lines: seq<string>): (ds: seq<string>)
    ensures forall i :: 0 <= i < |ds| ==> IsDataLine(ds[i])
    ensures |ds| <= |lines|
  {
    if |lines| == 0 then []
    else if IsDataLine(lines[|lines| - 1]) then DataLines(lines[..|lines| - 1]) + [lines[|lines| - 1]]
    else DataLines(lines[..|lines| - 1])
  }

  /** A line parser of the shape `parse_vcf` applies to each line. */
  type LineParser = string -> Result<Option<AlleleCall>, VcfError>

  /** The calls of the lines, in order, or the first error met. */
  function CollectLines(parse: LineParser, lines: seq<string>): Result<seq<AlleleCall>, VcfError>
  {
    if |lines| == 0 then Success([])
    else
      var calls :- CollectLines(parse, lines[..|lines| - 1]);
      var last :- parse(lines[|lines| - 1]);
      match last
      case None => Success(calls)
      case Some(c) => Success(calls + [c])
  }

  /** Every call of a file, in order, or the first error met: a file parses
      exactly when each of its lines does, and then yields one call per data
      line, in file order, each the call of that line. */
  function ParseVcf(lines: seq<string>): (r: Result<seq<AlleleCall>, VcfError>)
    ensures r.Success? <==> forall i :: 0 <= i < |lines| ==> ParseLine(lines[i]).Success?
    ensures r.Success? ==> |r.value| == |DataLines(lines)|
    ensures r.Success? ==> forall j :: 0 <= j < |DataLines(lines)| ==> ParseLine(DataLines(lines)[j]) == Success(Some(r.value[j]))
    ensures r.Failure? ==> exists i :: FirstFailure(ParseLine, lines, i) && r.error == ParseLine(lines[i]).error
  {
    CollectSucceeds(ParseLine, lines);
    CollectFirstError(ParseLine, lines);
    ParseLineCallsDataLines();
    if CollectLines(ParseLine, lines).Success? then
      CollectCalls(ParseLine, lines);
      CollectLines(ParseLine, lines)
    else CollectLines(ParseLine, lines)
  }

  /** A parser that yields a call exactly for the data lines it accepts. */
  ghost predicate CallsDataLines(parse: LineParser)
  {
    forall s :: parse(s).Success? ==> (parse(s).value.Some? <==> IsDataLine(s))
  }

  lemma ParseLineCallsDataLines()
    ensures CallsDataLines(ParseLine)
  {
    forall s | ParseLine(s).Success?
      ensures ParseLine(s).value.Some? <==> IsDataLine(s)
    {
    }
  }

  lemma {:induction false} CollectSucceeds(parse: LineParser, lines: seq<string>)
    ensures CollectLines(parse, lines).Success? <==> forall i :: 0 <= i < |lines| ==> parse(lines[i]).Success?
  {
    if |lines| > 0 {
      var n := |lines| - 1;
      var prefix := lines[..n];
      CollectSucceeds(parse, prefix);
      assert forall i :: 0 <= i < n ==> prefix[i] == lines[i];
    }
  }

  /** Line `i` is the first line the parser rejects. */
  predicate FirstFailure(parse: LineParser, lines: seq<string>, i: int)
  {
    && 0 <= i < |lines|
    && parse(lines[i]).Failure?
    && forall k :: 0 <= k < i ==> parse(lines[k]).Success?
  }

  /** A file that fails reports the error of its first rejected line. */
  lemma {:induction false} CollectFirstError(parse: LineParser, lines: seq<string>)
    ensures CollectLines(parse, lines).Failure? ==>
      exists i :: FirstFailure(parse, lines, i) && CollectLines(parse, lines).error == parse(lines[i]).error
  {
    if |lines| > 0 && CollectLines(parse, lines).Failure? {
      var n := |lines| - 1;
      var prefix := lines[..n];
      assert forall i :: 0 <= i < n ==> prefix[i] == lines[i];
      if CollectLines(parse, prefix).Failure? {
        CollectFirstError(parse, prefix);
        var i :| FirstFailure(parse, prefix, i) && CollectLines(parse, prefix).error == parse(prefix[i]).error;
        assert FirstFailure(parse, lines, i);
      } else {
        CollectSucceeds(parse, prefix);
        assert FirstFailure(parse, lines, n);
      }
    }
  }

  lemma {:induction false} CollectCalls(parse: LineParser, lines: seq<string>)
    requires CallsDataLines(parse)
    requires CollectLines(parse, lines).Success?
    ensures |CollectLines(parse, lines).value| == |DataLines(lines)|
    ensures forall j :: 0 <= j < |DataLines(lines)| ==> parse(DataLines(lines)[j]) == Success(Some(CollectLines(parse, lines).value[j]))
  {
    if |lines| > 0 {
      var n := |lines| - 1;
      var prefix := lines[..n];
      assert CollectLines(parse, prefix).Success?;
      CollectCalls(parse, prefix);
      var calls := CollectLines(parse, prefix).value;
      var ds := DataLines(prefix);
      assert parse(lines[n]).Success?;
      if IsDataLine(lines[n]) {
        var c := parse(lines[n]).value.value;
        assert CollectLines(parse, lines).value == calls + [c];
        assert DataLines(lines) == ds + [lines[n]];
      } else {
        assert CollectLines(parse, lines).value == calls;
        assert DataLines(lines) == ds;
      }
    }
  }

  /** A data line written as tab-separated columns, each non-empty and free
      of whitespace, and ended by a newline as the file yields it, reads back
      as those columns. */
  lemma TabLine(cols: seq<string>)
    requires |cols| >= 1 && |cols[0]| > 0 && cols[0][0] != '#'
    requires forall i :: 0 <= i < |cols| ==> |cols[i]| > 0 && NoSpace(cols[i])
    ensures ParseColumns(cols).Success? ==> ParseLine(Join(cols, '\t') + "\n") == Success(Some(ParseColumns(cols).value))
    ensures ParseColumns(cols).Failure? ==> ParseLine(Join(cols, '\t') + "\n") == Failure(ParseColumns(cols).error)
  {
    FieldsOfTabJoin(cols);
    var joined := Join(cols, '\t');
    var line := joined + "\n";
    FieldsSplitAtSpace(joined, '\n', "");
    assert joined + ['\n'] + "" == line;
    assert Fields(line) == cols;
    assert line[0] == cols[0][0] by {
      if |cols| > 1 {
        assert joined == cols[0] + ['\t'] + Join(cols[1..], '\t');
      }
    }
  }
}
