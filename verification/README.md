# phylo_cnv core, modelled in Dafny

This project models the decision logic of MIDAS `phylo_cnv/phylo_cnv.py`. That logic does four things:

- It turns the alignments of metagenomic reads against several genome clusters into one genome-cluster assignment per read.
- It turns pileup VCF lines into allele calls.
- It turns bedtools coverage records into per-pangene coverage and copy number.
- It provides the two small helpers the pipeline relies on: read batching and the Phred+33 quality codec.

Everything is written as immutable datatypes and pure functions over sequences and maps, plus four short methods with loops (`Batches.BatchReads`, `BestHits.FindBestHits`, `Coverage.SmallestKey`, `Coverage.CoverageRows`). Python floats are modelled as exact `real`s. Python's string builtins (`str.split(sep)`, `str.split()`, `int()` and string ordering) are written out in the `Strings` module, each as Python behaves on the text the pipeline hands it: `int()` only ever sees whitespace-free tokens here, so its stripping of surrounding whitespace is not modelled.

Modules, in dependency order:

- `Results`: `Option` (a value that may be `'NA'`/missing) and `Result` (a parse that stops with a named error).
- `Strings`: Python string operations the pipeline uses.
- `Alignment`: alignment records, `fetch_reads`, `compute_aln_score`, `compute_perc_id`.
- `BestHits`: the masking, identity filter and best-score fold of `find_best_hits`. It also gives a reference description of the map the fold builds, which pins that map down uniquely.
- `Ties`: `resolve_ties`, with the random draw as an injected chooser.
- `Batches`: `batch_reads`.
- `Quality`: `convert_to_ascii_quality` and `convert_from_ascii_quality`.
- `Vcf`: the line logic of `parse_vcf`.
- `Coverage`: the accumulation in `compute_pangenome_coverage`, the marker lookups of `compute_phyeco_cov`, and the copy-number rule and row order of `write_pangene_coverage`.

Where the source would raise, the model does one of two things:

- Where a caller's input makes the call meaningless, it adds a precondition:
  - a zero aligned length in `compute_perc_id`;
  - a scored record without an `NM` tag (`dict(aln.tags)['NM']` raises `KeyError`); a masked read is never scored, so its tags are not needed;
  - a zero batch size in `batch_reads`;
  - a missing mask key;
  - tie abundances that are negative (`np.random.choice` rejects negative probabilities) or that sum to zero;
  - a zero gene length, where numpy would give `inf` or `nan`.
- Where a parser meets bad text, it returns an `Option`/`Result`:
  - a quality score or character outside the 50-entry table;
  - a short VCF line, an INFO entry without exactly one `=`, a missing `I16` tag, or a non-integer count.

Some behaviours of the code are easy to miss; the model keeps them:

- `fetch_reads` buffers non-solo records one at a time. A solo record that arrives while a mate waits in the buffer is emitted *before* that pair. Concatenating the emitted reads therefore does not always give the stream back (`Alignment.SoloOvertakesBufferedMate`). An odd non-solo record left in the buffer at the end is dropped.
- The tied clusters a read is drawn among follow the order of the genome-cluster list. The source uses dict key order, which Python 2 leaves unspecified.
- `compute_phyeco_cov` runs after all batches and before the rows are written. It looks up each marker pangene in a `defaultdict(float)`, which inserts the pangene with coverage 0.0. Marker pangenes with no reads therefore still get an output row (`Coverage.MarkerCoveragesSpec`).
- Over exact reals the coverage sums do not depend on record or batch order (`Coverage.RecordOrderIrrelevant`, `Coverage.BatchesCompose`). Over floats they depend on it up to rounding.

## Model

| member | source | states |
|---|---|---|
| Strings.Split | phylo_cnv/phylo_cnv.py:528 | `s.split(sep)` yields at least one piece, no piece holds the separator, and exactly one piece when the separator is absent |
| Strings.SplitJoin | phylo_cnv/phylo_cnv.py:528 | splitting a join of separator-free pieces gives the pieces back, the other half of the round trip |
| Strings.JoinSplit | phylo_cnv/phylo_cnv.py:528 | joining the pieces of a split with the separator gives the string back |
| Strings.Fields | phylo_cnv/phylo_cnv.py:526 | `line.rstrip().split()` yields only non-empty whitespace-free fields |
| Strings.FieldsKeepText | phylo_cnv/phylo_cnv.py:526 | the fields, concatenated, are exactly the non-whitespace characters of the line in order |
| Strings.FieldsWord | phylo_cnv/phylo_cnv.py:526 | a non-empty run without whitespace is a single field, itself |
| Strings.FieldsSplitAtSpace | phylo_cnv/phylo_cnv.py:526 | a whitespace character splits the fields: the fields of the text before it followed by those of the text after it; with the lemma above, the fields are exactly the maximal whitespace-free runs |
| Strings.FieldsOfTabJoin | phylo_cnv/phylo_cnv.py:526 | a line of tab-joined non-empty whitespace-free columns splits back into those columns |
| Strings.ParseInt | phylo_cnv/phylo_cnv.py:533 | on whitespace-free text, as at line 533, `int()` accepts exactly an optional sign followed by at least one digit |
| Strings.ParseShow | phylo_cnv/phylo_cnv.py:533 | `int()` of a printed integer gives the integer back |
| Strings.LeastExists | phylo_cnv/phylo_cnv.py:386 | under Python's code-point string order every non-empty set of ids has a least element |
| Alignment.FetchFrom | phylo_cnv/phylo_cnv.py:217-231 | every emitted read is one solo record, or two non-solo records |
| Alignment.FetchReads | phylo_cnv/phylo_cnv.py:217-231 | every read is one solo record or two non-solo records; the one-record reads are the solo records in input order; the two-record reads, followed by an unmatched last record, are the non-solo records in input order |
| Alignment.FetchSingles | phylo_cnv/phylo_cnv.py:217-231 | the single-record reads are exactly the solo records (unpaired, or mate unmapped and first/second in pair), in input order |
| Alignment.FetchPairs | phylo_cnv/phylo_cnv.py:217-231 | the two-record reads followed by the buffer at end of stream are exactly the non-solo records in input order, paired consecutively |
| Alignment.LeftoverParity | phylo_cnv/phylo_cnv.py:217-231 | at most one record is left unemitted, one exactly when the count of non-solo records is odd |
| Alignment.FetchFromSnoc | phylo_cnv/phylo_cnv.py:217-231 | with any buffer state, one more record at the end of the stream appends at most one read to the output: itself if solo, the buffered mate and itself if a mate waits, nothing otherwise |
| Alignment.FetchReadsSnoc | phylo_cnv/phylo_cnv.py:217-231 | the reads come out in stream order: the reads of a longer stream extend those of its prefix, a solo record as its own read and a non-solo one completing the waiting mate |
| Alignment.SoloOvertakesBufferedMate | phylo_cnv/phylo_cnv.py:217-231 | a solo record arriving between two mates is emitted before the pair |
| Alignment.Score | phylo_cnv/phylo_cnv.py:233-244 | for a read whose scored records carry the `NM` tag, the score is the summed query length minus the summed `NM` edit distance of the records making up the read (one for unpaired or mate-unmapped reads, both mates otherwise) |
| Alignment.PercId | phylo_cnv/phylo_cnv.py:246-257 | percent identity is at most 100, and non-negative exactly when the edits do not exceed the aligned length |
| Alignment.PercIdIsScoreOverLength | phylo_cnv/phylo_cnv.py:233-257 | percent identity is 100 times the score divided by the aligned length, over the same records |
| Alignment.PairExample | phylo_cnv/phylo_cnv.py:233-257 | two 100-base mates with 2 and 3 edits score 195 at 97.5% identity |
| BestHits.Step | phylo_cnv/phylo_cnv.py:296-316 | a masked or filtered unit leaves the map unchanged; a compared unit adds its read if new, touches no other read's entry, leaves that entry with the larger of the old and the new score, and lists the unit's cluster with its alignment when the new score is kept |
| BestHits.Fold | phylo_cnv/phylo_cnv.py:289-316 | only reads with a unit surviving mask and filter are stored, each with at least one cluster; so a read all of whose alignments are masked or below the identity minimum gets no entry |
| BestHits.FoldMeetsSpec | phylo_cnv/phylo_cnv.py:298-316 | the fold's map holds exactly the reads with a unit surviving masking and the identity filter, each with the maximal score over those units and, per cluster reaching it, the last such alignment |
| BestHits.SpecUnique | phylo_cnv/phylo_cnv.py:298-316 | at most one map meets that description, so the fold is characterised by it |
| BestHits.FindBestHits | phylo_cnv/phylo_cnv.py:289-316 | the search loop over the visited units builds a map meeting the description |
| BestHits.StoredAlignmentPassedFilter | phylo_cnv/phylo_cnv.py:298-316 | every stored alignment was visited for that read on that cluster, passed mask and filter, and has the stored score |
| BestHits.StepSound | phylo_cnv/phylo_cnv.py:311-316 | a step keeps every stored alignment the last visited one reaching the stored score on its cluster |
| BestHits.StepComplete | phylo_cnv/phylo_cnv.py:311-316 | a step keeps every cluster reaching the best score recorded |
| Ties.Tied | phylo_cnv/phylo_cnv.py:349 | the tie candidates are exactly the listed clusters among the tied alternatives; they have no repeats when the genome-cluster list has none |
| Ties.WeightsWellFormed | phylo_cnv/phylo_cnv.py:350-351 | the draw probabilities are non-negative, proportional to the tied clusters' abundances, and sum to 1 |
| Ties.Drawn | phylo_cnv/phylo_cnv.py:348-352 | a tied read's drawn cluster is one of its alternatives: the tie candidate at the index the random draw picks, given the candidates and their abundance shares as probabilities |
| Ties.Resolve | phylo_cnv/phylo_cnv.py:346-353 | a read's assignment is one of its tied alternatives with that alternative's alignment; a read with one alternative gets it; a read with several gets the drawn cluster |
| Ties.ResolveTies | phylo_cnv/phylo_cnv.py:342-354 | every stored read, and only those, gets an assignment from its own alternatives; each tied read gets the cluster drawn with abundance-weighted probabilities |
| Ties.Reassign | phylo_cnv/phylo_cnv.py:316-319 | exactly the stored reads are assigned, each has a compared unit, and each goes to one of its stored best clusters with that cluster's alignment |
| Ties.ReassignCorrect | phylo_cnv/phylo_cnv.py:298-354 | after search and tie resolution a read is assigned exactly when one of its alignments survives mask and filter, and then to an alignment of maximal score |
| Ties.HigherScoreWins | phylo_cnv/phylo_cnv.py:311-353 | a read scoring higher on one cluster goes to that cluster in either visiting order, whatever the random draw |
| Batches.CeilDiv | phylo_cnv/phylo_cnv.py:463 | the batch count is the least number of batches covering all reads |
| Batches.CeilQuot | phylo_cnv/phylo_cnv.py:463 | the batch count is the least integer at or above read count / batch size, for a size of either sign |
| Batches.NegativeSizeNoBatches | phylo_cnv/phylo_cnv.py:463-464 | a negative batch size gives a batch count of at most 0, so the batch range is empty |
| Batches.BatchReads | phylo_cnv/phylo_cnv.py:459-470 | for a positive size, `batch_reads` yields the ceiling count of batches, each full-size at its stride except a shortened last one, with sizes summing to the read count; for a negative size it yields no batches |
| Batches.Contiguous | phylo_cnv/phylo_cnv.py:464-469 | batches start at read 1, follow each other without gap or overlap, have sizes between 1 and the batch size, and end at the last read |
| Batches.EachReadInOneBatch | phylo_cnv/phylo_cnv.py:464-469 | every read 1..T lies in exactly one batch |
| Batches.StartsGrow | phylo_cnv/phylo_cnv.py:464-469 | a later batch starts after an earlier one ends |
| Quality.AlphabetIsOffset | phylo_cnv/phylo_cnv.py:474-475 | the 50-character table maps score i to the character with code 33 + i |
| Quality.EncodeScore | phylo_cnv/phylo_cnv.py:475-476 | a score 0..49 encodes as character code 33 + score |
| Quality.DecodeChar | phylo_cnv/phylo_cnv.py:481-482 | a character decodes exactly when it is in the table (`!`..`R`), to its code minus 33 |
| Quality.ToAscii | phylo_cnv/phylo_cnv.py:472-476 | encoding succeeds exactly when every score is in 0..49, character by character at offset 33 |
| Quality.FromAscii | phylo_cnv/phylo_cnv.py:478-482 | decoding succeeds exactly when every character is in the table, character by character at offset 33 |
| Quality.DecodeEncode | phylo_cnv/phylo_cnv.py:472-482 | decoding the encoding of valid scores gives the scores back |
| Quality.EncodeDecode | phylo_cnv/phylo_cnv.py:472-482 | encoding the decoding of a valid quality string gives the string back |
| Vcf.AltAlleles | phylo_cnv/phylo_cnv.py:528-529 | the ALT alleles are the comma-separated pieces, unchanged when `<X>` is not among them, else with exactly its first occurrence removed and one fewer |
| Vcf.RemoveAbsent | phylo_cnv/phylo_cnv.py:529 | without a `<X>` placeholder the alternate alleles are left as listed |
| Vcf.RemoveFirstAt | phylo_cnv/phylo_cnv.py:529 | with a placeholder, exactly its first occurrence is removed and the rest keep their order |
| Vcf.EntriesMapKeys | phylo_cnv/phylo_cnv.py:532 | the INFO map's keys are exactly the keys of the INFO entries |
| Vcf.EntriesMapValues | phylo_cnv/phylo_cnv.py:532 | each INFO key is bound to the value of the last entry carrying it |
| Vcf.ParseInfo | phylo_cnv/phylo_cnv.py:532 | INFO parses exactly when every `;`-entry has exactly one `=`, else `MalformedInfo`; the map's keys are the entries' keys, each bound to the value of its last entry |
| Vcf.ParseCounts | phylo_cnv/phylo_cnv.py:533 | the counts parse exactly when every token is an integer, each to its `int()` value |
| Vcf.I16Counts | phylo_cnv/phylo_cnv.py:533 | the counts are the `int()` values of the first (at most four) `I16` numbers, or `BadCount` naming a non-integer among them |
| Vcf.CallAllele | phylo_cnv/phylo_cnv.py:544-552 | depth is the sum of the counts and equals reference plus alternate reads |
| Vcf.CallAlleleSpec | phylo_cnv/phylo_cnv.py:528-555 | reference reads are the sum of the first two counts and alternate reads the sum of the rest (the two forward/reverse pairs for four counts); depth is their sum; the allele count is one plus the listed alternates; consensus is NA exactly with no reads or winning alternate reads without a listed allele, the reference when it has at least as many reads, else the first alternate; frequency is NA exactly with no reads, else the reference share of depth, in [0, 1] for non-negative counts |
| Vcf.CallExamples | phylo_cnv/phylo_cnv.py:534-555 | counts 10,8,1,1 call the reference at 0.9; zero counts call NA; alternate reads with only `<X>` listed call NA |
| Vcf.ParseColumns | phylo_cnv/phylo_cnv.py:526-555 | fewer than eight columns, a malformed INFO and a missing `I16` each give their error; otherwise the result is `BadCount` when the `I16` counts do not parse, else the call built from columns 1, 2, 4, 5 and those counts |
| Vcf.ParseLine | phylo_cnv/phylo_cnv.py:523-526 | headers yield nothing; an empty string is an error; any other line gives the call, or the error, of its whitespace-separated columns |
| Vcf.ParseVcf | phylo_cnv/phylo_cnv.py:520-555 | a file parses exactly when each of its lines does, and then yields one call per data line, in order, each that line's call; otherwise it reports the error of its first rejected line |
| Vcf.CollectFirstError | phylo_cnv/phylo_cnv.py:520-555 | collecting line results stops at the first rejected line and reports that line's error |
| Vcf.TabLine | phylo_cnv/phylo_cnv.py:523-526 | a newline-terminated data line of tab-joined columns parses as those columns |
| Coverage.AddRecord | phylo_cnv/phylo_cnv.py:402-405 | one record makes its pangene present and adds reads x read length / gene length to it; every other pangene keeps its coverage |
| Coverage.Accumulate | phylo_cnv/phylo_cnv.py:402-405 | accumulating a batch keeps every pangene already present and makes every pangene of the batch present |
| Coverage.AccumulateClosedForm | phylo_cnv/phylo_cnv.py:399-405 | after a batch the pangenes present are the earlier ones plus those the batch mentions, each at its earlier coverage plus the sum of reads x read length / gene length over its records |
| Coverage.TotalPermutation | phylo_cnv/phylo_cnv.py:402-405 | a pangene's summed contribution is the same for any order of the records |
| Coverage.RecordOrderIrrelevant | phylo_cnv/phylo_cnv.py:402-405 | accumulating any permutation of the records gives the same coverage map |
| Coverage.BatchesCompose | phylo_cnv/phylo_cnv.py:399-405 | accumulating one batch after another equals accumulating their records in sequence |
| Coverage.CoverageNonNegative | phylo_cnv/phylo_cnv.py:402-405 | with non-negative reads and read length and positive gene lengths no coverage is negative |
| Coverage.MarkerCoverages | phylo_cnv/phylo_cnv.py:418-430 | at most one baseline input per table line; the marker lookups keep every pangene and its coverage |
| Coverage.MarkerCoveragesSpec | phylo_cnv/phylo_cnv.py:418-430 | the baseline inputs are the coverages (0.0 when absent) of the marker lines' pangenes in file order; afterwards every marker pangene is present, nothing else is added and no coverage changes |
| Coverage.CopyNumber | phylo_cnv/phylo_cnv.py:388 | copy number times a positive baseline is the coverage; a baseline that is not positive gives 0; non-negative coverage gives a non-negative copy number |
| Coverage.SmallestKey | phylo_cnv/phylo_cnv.py:386 | the scan finds the id preceding all others in the set |
| Coverage.CoverageRows | phylo_cnv/phylo_cnv.py:380-389 | one row per pangene in the map, in strictly ascending (so pairwise distinct) id, each with its coverage and copy number |

## Left out

- Process invocation (`align_reads`, `align_to_rep`, `pileup_on_rep`, `run_bed_coverage`): these only build shell commands around bowtie2, samtools and bedtools.
- `format_vcf` and `vcf_to_snps` (lines 207-215, 507-518): they run `parse_vcf` (modelled as `Vcf.ParseVcf`) on each cluster's VCF file and write its records as tab-separated text; the paths, the loop over clusters and the text output are I/O.
- File and BAM I/O: pysam, gzip, directory creation, `write_best_hits`, `write_fastq_record`, `bam_to_fastq`. The model takes the records, lines and tables as sequences.
- The reference-map side table and the `getrname(...).split('|')[1]` reformatting (lines 291-295, 299-300): the record's scaffold field is taken to be the reformatted id already.
- The skip of a genome cluster whose BAM file is missing (lines 282-285): the units visited are an input.
- The outer loop over genome clusters and the reading of the two mask tables (lines 266-279): the visiting order, the run table and the per-cluster scaffold tables are inputs.
- `np.random.choice`: it is an injected chooser that only needs to return an index into the tied clusters.
- `np.median` in `compute_phyeco_cov`: the baseline is an input real; only the lookups that feed it are modelled.
- `np.mean` in `get_read_length`: the read length is an input real.
- `get_read_count`: this is file I/O. The read total is an input to `batch_reads`.
- `parse_bed_cov`: this is text-to-number conversion including floats. Coverage records arrive parsed.
- The header line and two-field split of `pangene_to_phyeco.gz`: the table arrives parsed.
- `check_arguments`, `read_phylo_species`, `select_genome_clusters`, `report_mapping_summary`, `run_pipeline`, `print_copyright`, `max_mem_usage`: these are CLI and orchestration code.
- Floating-point rounding: the model uses exact reals. As a result, a `nan` or infinite baseline is not modelled.
- Text rendering of rows: for example, the source prints the copy number as integer `0` when the baseline is not positive.
- Coverage.Contribution: requires a non-zero gene length, because the source's float division would give `inf` or `nan` there and reals have neither.
- Vcf.ParseVcf: states the whole-file result as either all calls or the first error. The source is a generator, so calls before a bad line have already been yielded when it raises.
- Strings.ParseInt: does not strip leading or trailing whitespace as Python's `int()` does, because its one caller passes pieces of a whitespace-split field.
- Ties.Tied: fixes the tied clusters' order to the genome-cluster order, which Python 2 dict order does not promise.
