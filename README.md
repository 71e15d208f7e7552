# FasMan core, modelled in Dafny

FasMan is a toolbox of FASTA utilities for genome curation. This project
models its central tool and four smaller ones:

- **TPF-driven re-assembly** (`src/tpf_fasta.rs`), in module `TpfFasta` with
  `TpfOutput`. A tiling-path file (TPF) lists edit lines of the form
  `? <scaffold>:<start>-<end> <new scaffold> <orientation>`. The tool:
  - parses the edit lines, skipping gap lines and rewriting `RL` to `SUPER`
    in destination names;
  - picks, for every scaffold of the input FASTA, the records that cut it;
  - cuts each record's 1-based inclusive range out of the scaffold,
    reverse-complementing it when the orientation is `MINUS`;
  - writes one FASTA record per destination scaffold, in first-appearance
    order. Its fragments are joined by a run of `N`s and wrapped at 60
    characters.
  - writes a provenance report alongside.
- **Header rewriting** (`src/generics.rs`), in module `Generics`:
  `sanitise_header` and `get_gene_id`.
- **Header renumbering** (`src/processors/map_headers.rs` and its older copy
  `src/map_headers.rs`), in modules `MapHeaders` and `MapHeadersLegacy`.
  Record names become `{new}_{i}`, the pairs are saved as a TSV, and the
  FASTA is rewritten line by line.
- **Splitting by count** (`src/processors/split_by_count.rs` and its older
  copy `src/split_by_count.rs`), in modules `SplitByCount` and
  `SplitByCountLegacy`. Records are batched into numbered files of a fixed
  size.
- **Data listing** (`src/generate_csv.rs`), in module `GenerateCsv`:
  `list_2_dict`.

Supporting modules:
- `Wrappers`: `Option` and `Result`.
- `Seqs`: counting, flattening and first-occurrence deduplication.
- `Text`: the Rust standard-library string operations the tools use.
  - `split` with a character keeps empty pieces.
  - `split_whitespace` splits on Unicode white space and drops empty pieces.
  - `replace` works left to right without overlaps.
  - `lines` strips `\n` and `\r\n` and yields no final empty line.
  - `usize::from_str` accepts an optional `+`, needs a digit and overflows
    above 2^64-1.
  - Integers are printed in decimal.
- `Nucleotide`: the IUPAC complement table in both cases.

How the model treats the program:
- Every panic (`unwrap`, `expect`, an index out of range) becomes an `Err`
  result, and the run then produces no output.
- Files are read as text parameters, and the files written are returned as
  strings or as lists of (path, records).
- Loops of the source are `method`s with loop invariants. Each is proved
  equal to a specification function, and the properties are lemmas about
  those functions.

Behaviour of the code a reader may not expect:
- A TPF record whose source scaffold is not in the FASTA is silently
  dropped; no scaffold lookup fails for it (`TpfOutput.MissingSourceDropped`).
  Its destination header is still written, with the fragments it does get.
  The doc comment of `curate_fasta` (src/tpf_fasta.rs:222-223) says the
  program exits when a sequence is missing. That covers a scaffold of the
  FASTA whose sequence lookup fails, which the model treats as an error
  (`TpfOutput.CuratedDataOk`), not a TPF record naming an absent scaffold.
- The report goes to `debug.txt` in the working directory, whatever the
  output path is. Each report line is `\t` plus `Display`, and `Display` already starts
  with a tab, so report lines start with two tabs. The orientation is
  never printed.
- An index entry whose records match more than once contributes each
  matching fragment once per matching entry. So a record listed twice in
  the TPF yields four copies (`TpfOutput.CuratedMatches`).
- `fix_head` stores the `sanitise_header` string, which starts with `>`, as
  the definition. The older `fix_head` stores the printed definition, which
  also starts with `>`. The FASTA writer adds one more `>`, so sanitised
  headers are written as `>>…` (`SplitByCount.FixHeadDoubleMarker`,
  `SplitByCountLegacy.FixHeadLegacyHeader`).
- The record counter in the splitters is `u16` and is incremented before
  it is compared. With a count of 0 it matches only after wrapping, so
  (with wrapping arithmetic) every 65536 records form a file
  (`SplitByCount.Limit`).

## Model

| member | source | states |
|---|---|---|
| TpfFasta.DisplayFields | src/tpf_fasta.rs:24-31 | the printed record splits at spaces into the tab-prefixed scaffold, `--`, start, `--`, end |
| TpfFasta.DisplayInjective | src/tpf_fasta.rs:24-31 | two records print alike only if scaffold and both coordinates agree (orientation and destination are not printed) |
| TpfFasta.EditLines | src/tpf_fasta.rs:55 | only lines starting with `?` are edit lines |
| TpfFasta.ParseTpf | src/tpf_fasta.rs:49-72 | the loop over the lines of the file computes `ParseLines(Lines(text))` |
| TpfFasta.ParseLinesSpec | src/tpf_fasta.rs:52-69 | parsing succeeds iff every `?` line parses; then exactly one record per `?` line, in file order; other lines add nothing |
| TpfFasta.ParseLinesErrSticky | src/tpf_fasta.rs:63-64 | a failing line fails the whole file with that error: no partial result |
| TpfFasta.ParseFormatLine | src/tpf_fasta.rs:57-67 | a record written as a tab-separated TPF line parses back to itself with `RL` rewritten to `SUPER` in the destination |
| TpfFasta.ParseFormatLineRoundTrip | src/tpf_fasta.rs:57-67 | when the destination holds no `RL`, writing then parsing is the identity |
| TpfFasta.FormatLineTokens | src/tpf_fasta.rs:57-58 | a written TPF line normalises and splits into `?`, the scaffold token, the destination and the orientation |
| TpfFasta.RenameScaffoldRewrites | tests/tpf_fasta.rs:168 | `RL_3` becomes `SUPER_3` |
| TpfFasta.RenameScaffoldKeeps | tests/tpf_fasta.rs:175 | `SCAFFOLD_84` is unchanged |
| TpfFasta.Subset | src/tpf_fasta.rs:80-84 | every selected record belongs to the named scaffold |
| TpfFasta.SubsetVecTpf | src/tpf_fasta.rs:75-86 | the loop computes `Subset(tpf, name)`; the length half of the pair is unused |
| TpfFasta.SubsetCount | src/tpf_fasta.rs:80-84 | a record of the scaffold is kept as often as it occurs, any other record never |
| TpfFasta.SubsetAppend | src/tpf_fasta.rs:80-84 | selection distributes over concatenation, so relative order is kept |
| TpfFasta.SliceInclusive | src/tpf_fasta.rs:121 | the 1-based inclusive slice exists iff `start-1 <= end <= len`, and has `end-start+1` characters |
| TpfFasta.CheckOrientation | src/tpf_fasta.rs:89-108 | exactly `MINUS` gives the reverse complement (failing on a base without complement), any other string the sequence itself, a missing slice an error |
| TpfFasta.Fragment | src/tpf_fasta.rs:119-122 | a fragment exists iff both positions are non-zero, the range fits and a MINUS range is complementable; its length is `end-start+1`; PLUS gives the slice, MINUS its reverse complement |
| TpfFasta.ParseSeq | src/tpf_fasta.rs:111-130 | the loop computes `ParseSeqSpec`; a missing sequence fails before any record |
| TpfFasta.FragmentsSpec | src/tpf_fasta.rs:118-128 | success iff every record's fragment exists; then one entry per record, in order, holding the record and its fragment |
| TpfFasta.FragmentsErrSticky | src/tpf_fasta.rs:119-122 | the first failing record fails the scaffold with no partial result |
| TpfFasta.GetUniques | src/tpf_fasta.rs:133-141 | the loop computes the first-occurrence deduplication of the destination names |
| TpfFasta.UniquesSpec | src/tpf_fasta.rs:133-141 | no duplicates; every destination appears; nothing else appears; names in order of first appearance |
| TpfFastaExamples.CheckOrientationMinus | tests/tpf_fasta.rs:10-16 | `ATGC` MINUS gives `GCAT` |
| TpfFastaExamples.CheckOrientationPlus | tests/tpf_fasta.rs:18-24 | `ATGC` PLUS gives `ATGC` |
| TpfFastaExamples.GetUniquesExample | tests/tpf_fasta.rs:29-58 | `[newScaffold1, newScaffold2, newScaffold1]` deduplicates to `[newScaffold1, newScaffold2]` |
| TpfFastaExamples.SubsetExample | tests/tpf_fasta.rs:62-89 | two of the three fixture records belong to `scaffold1` |
| TpfFastaExamples.ParseTpfExample | tests/tpf_fasta.rs:152-177 | the five fixture lines (four edit lines and a gap line) give four records, the first `(SCAFFOLD_12, 1, 900734, SUPER_3, MINUS)`, the last `(SCAFFOLD_84, 1, 2000, SCAFFOLD_84, PLUS)` |
| TpfFastaExamples.FixtureLineText12 | tests/tpf_fasta.rs:158 | the first fixture edit line is `?\tSCAFFOLD_12:1-900734\tRL_3\tMINUS` |
| TpfFastaExamples.FixtureLineText84 | tests/tpf_fasta.rs:162 | the last fixture edit line is `?\tSCAFFOLD_84:1-2000\tSCAFFOLD_84\tPLUS` |
| TpfFastaExamples.ParseSeqExample | tests/tpf_fasta.rs:91-129 | the fixture fragments are `TGG`, `GGTTTAACGCG` and the 58-character prefix |
| TpfFastaExamples.ParseSeqBoundsError | tests/tpf_fasta.rs:131-150 | range 10..60 on the 59-character fixture fails |
| Nucleotide.Complement | src/tpf_fasta.rs:96-99 | the complement exists iff every base is in the IUPAC table; it is base-by-base; an error names a base without complement |
| Nucleotide.Reverse | src/tpf_fasta.rs:101 | position `i` of the result is position `len-1-i` of the input |
| Nucleotide.ReverseComplement | src/tpf_fasta.rs:96-101 | position `i` is the complement of input position `len-1-i` |
| Nucleotide.ComplementReverse | src/tpf_fasta.rs:96-101 | complementing a reversed sequence is reversing its complement |
| Nucleotide.ComplementTwice | src/tpf_fasta.rs:96-99 | complementing twice gives the sequence back |
| Nucleotide.ReverseComplementTwice | src/tpf_fasta.rs:93-101 | reverse-complementing twice gives the sequence back |
| TpfOutput.MatchFor | src/tpf_fasta.rs:186-194 | the innermost loop collects the entries equal to the record, with one report line each |
| TpfOutput.CollectFor | src/tpf_fasta.rs:184-196 | the per-destination loops collect `Collected` and write `ReportBody` |
| TpfOutput.WriteLines | src/tpf_fasta.rs:209-212 | the chunk loop writes each line followed by a newline, in order |
| TpfOutput.WriteScaffold | src/tpf_fasta.rs:168-212 | one destination appends `>x` and its wrapped joined fragments to the FASTA text, and `>x` and its provenance lines to the report |
| TpfOutput.SaveToFasta | src/tpf_fasta.rs:148-214 | the FASTA text and the report equal `FastaText` and `ReportText`: destinations in `get_uniques` order, fragments joined by `n` `N`s, wrapped at 60 |
| TpfOutput.WrapSpec | src/tpf_fasta.rs:198-212 | wrapped lines concatenate to the sequence; all but the last have 60 characters, the last 1..60; an empty sequence gives no line |
| TpfOutput.JoinedSnoc | src/tpf_fasta.rs:200-201 | one more record with one fragment extends its destination's written sequence: alone if it is the first fragment, after a run of `n` `N`s otherwise, never with a trailing run; other destinations are unchanged |
| TpfOutput.RecordReadsBack | src/tpf_fasta.rs:170-171 | a written record read back line by line is the `>name` line followed by the wrapped lines |
| TpfOutput.CurateFasta | src/tpf_fasta.rs:234-262 | the run parses the TPF, cuts every indexed scaffold in index order and renders, as `Curate` |
| TpfOutput.CuratedMatches | src/tpf_fasta.rs:249-261 | record `t` receives `Count(tpfs, t)` copies of its fragment when its source scaffold is indexed, none otherwise |
| TpfOutput.MissingSourceDropped | src/tpf_fasta.rs:250-251 | a record whose source is not in the FASTA gets no entry and raises no error |
| TpfOutput.ScaffoldFragments | src/tpf_fasta.rs:184-196 | with distinct records whose sources are all present, each destination gets exactly one fragment per record, in TPF order |
| TpfOutput.CuratedDataOk | src/tpf_fasta.rs:250-260 | the loop succeeds iff every indexed scaffold has a sequence and all its records cut |
| TpfOutput.CurateOrderIndependent | src/tpf_fasta.rs:250 | the iteration order of the validated map does not change success or either output file |
| TpfOutput.MatchSeqsFragments | src/tpf_fasta.rs:118-128 | cutting a scaffold yields, per record, one entry per occurrence of that record |
| Generics.Render | src/generics.rs:88 | a printed definition starts with `>` |
| Generics.Modifier | src/generics.rs:97-101 | `protein_id` exactly for data type `pep`, otherwise `transcript_id` |
| Generics.SanitiseRendered | src/generics.rs:82-120 | fails iff the header contains `ENS` and has fewer than six `\|`-fields; without `ENS` the result is `>gene_id=` plus one space-free word |
| Generics.EnsemblFields | src/generics.rs:88-110 | a header of at least six `\|`-free fields is rewritten to `>{m}={f0 without >};gene_name={f4};transcript_name={f5};gene_id={f1}` |
| Generics.EnsemblTooFewFields | src/generics.rs:92-109 | fewer than six fields fails, naming the field count |
| Generics.PlainHeader | src/generics.rs:111-116 | without `ENS` the result is `>gene_id=` and the definition's name |
| Generics.GetGeneId | src/generics.rs:54-58 | succeeds iff the header is non-empty and does not start with a space or a multi-byte character; the result is the first word minus its first character |
| Generics.GeneIdOfDefinition | src/generics.rs:54-58 | the gene id of a printed definition is its name, whatever `ens` is |
| Generics.PlainHeaderIsGeneId | src/generics.rs:112-116 | outside the `ENS` branch `sanitise_header` is `>gene_id=` followed by `get_gene_id` |
| MapHeaders.CreateMapping | src/processors/map_headers.rs:24-43 | one pair per name, in order, the i-th being `(name_i, new_name + "_" + i)`; `create_mapping` in src/map_headers.rs is the same code |
| MapHeaders.NewHeadsDistinct | src/processors/map_headers.rs:31-37 | the new names are pairwise distinct even when the old ones repeat |
| MapHeaders.SaveMapping | src/processors/map_headers.rs:45-59 | the file is one `old\tnew\n` line per pair, in order; `save_mapping` in src/map_headers.rs is the same code |
| MapHeaders.MappingRoundTrip | src/processors/map_headers.rs:54-58 | reading the saved table back gives the pairs when names hold no tab, newline or carriage return |
| MapHeaders.FindOld | src/processors/map_headers.rs:80-81 | finds the first pair with the given old name, or reports that none has it |
| MapHeaders.CreateMappedFasta | src/processors/map_headers.rs:62-91 | the line loop computes `MappedFasta`; `create_mapped_fasta` in src/map_headers.rs is the same code |
| MapHeaders.MapLinesSpec | src/processors/map_headers.rs:74-89 | success iff every `>` line has a pair; one output line per input line; other lines copied; headers become `>` plus the first match's new name |
| MapHeaders.MapBack | src/processors/map_headers.rs:76-84 | mapping with the pairs and then with the swapped pairs restores the original lines |
| MapHeaders.MapFastaHead | src/processors/map_headers.rs:93-130 | the table and FASTA are those of the numbered mapping of the map's keys |
| MapHeadersLegacy.ValidNamesSpec | src/map_headers.rs:25-38 | a name is returned iff some record with it was read, as often as such records occur; rejected records are dropped |
| MapHeadersLegacy.ValidNamesAllRead | src/map_headers.rs:31 | with no rejected record the names are the records' names in file order |
| MapHeadersLegacy.ValidNamesAppend | src/map_headers.rs:31 | collection distributes over concatenation: file order is kept |
| MapHeadersLegacy.MapFastaHeadLegacy | src/map_headers.rs:87-117 | the table and FASTA are those of the numbered mapping of the file-ordered names |
| SplitByCount.FileName | src/processors/split_by_count.rs:41-42 | a file name is a non-empty, slash-free last component other than `.` and `..` |
| SplitByCount.FileNameOfJoined | src/processors/split_by_count.rs:41-42 | `dir/name` has file name `name` |
| SplitByCount.NamePrefixStem | src/processors/split_by_count.rs:43-44 | files are named after the file name up to its first `.` |
| SplitByCount.FixHead | src/processors/split_by_count.rs:14-23 | unchanged without `sanitise`; otherwise the sequence is kept and it fails exactly when `sanitise_header` does |
| SplitByCount.FixHeadPlain | src/processors/split_by_count.rs:15-19 | a non-Ensembl record gets definition `>gene_id=<name>` and keeps its sequence |
| SplitByCount.FixHeadDoubleMarker | src/processors/split_by_count.rs:16-17 | the written header of a sanitised record starts with `>>` |
| SplitByCount.Limit | src/processors/split_by_count.rs:66-73 | batches hold `count` records, 65536 when `count` is 0 |
| SplitByCount.BatchesSpec | src/processors/split_by_count.rs:64-87 | batches written in the loop have exactly the limit, the pending records fewer, and together they are the input in order |
| SplitByCount.AllBatchesSpec | src/processors/split_by_count.rs:63-98 | all files together are the input; all but the last are full; the last is short and its size is the remainder |
| SplitByCount.ZeroCountSingleFile | src/processors/split_by_count.rs:66-73 | with count 0 and fewer than 65536 records there is a single file |
| SplitByCount.Collect | src/processors/split_by_count.rs:65-87 | one loop turn appends the record and writes the batch and resets exactly when it reaches the limit |
| SplitByCount.CounterReaches | src/processors/split_by_count.rs:66-73 | the 16-bit record counter, incremented with wrap-around, equals the count exactly when the batch reaches its limit |
| SplitByCount.WriteBatches | src/processors/split_by_count.rs:53-98 | the record loop and the final write produce the batched files of the fixed records, or the first header error |
| SplitByCount.SplitFileByCount | src/processors/split_by_count.rs:40-99 | the run computes `Files`: the numbered output files, or the first error |
| SplitByCount.FilesSpec | src/processors/split_by_count.rs:63-98 | a run writes the fixed records in order; every file but the last is full; file k is `{dir}{name}_f{k mod 65536}_c{count}-a{len}.fa` |
| SplitByCount.FixAllKeeps | src/processors/split_by_count.rs:20-21 | without sanitising the records are written unchanged |
| SplitByCount.OutPathsDistinct | src/processors/split_by_count.rs:74-81 | different file numbers give different paths |
| SplitByCount.OutputsDistinct | src/processors/split_by_count.rs:74-97 | paths of one run are distinct until the 16-bit file counter wraps |
| SplitByCountLegacy.FixHeadLegacy | src/split_by_count.rs:18-29 | the sequence is kept and the new definition has no description |
| SplitByCountLegacy.FixHeadLegacyHeader | src/split_by_count.rs:14-25 | the written header is the old one with one more `>`; `sanitise` is ignored |
| SplitByCountLegacy.SplitFileByCountLegacy | src/split_by_count.rs:47-117 | the run computes `FilesLegacy` |
| SplitByCountLegacy.FilesLegacySpec | src/split_by_count.rs:83-116 | a run writes the rebuilt records in order; every file but the last is full, the last short |
| SplitByCountLegacy.LegacyPathsDistinct | src/split_by_count.rs:93-115 | all files of a run have different paths |
| GenerateCsv.ListToDict | src/generate_csv.rs:23-43 | the loop computes `Dict` |
| GenerateCsv.DictOk | src/generate_csv.rs:34-39 | fails iff some non-README path has fewer than three components |
| GenerateCsv.DictKeys | src/generate_csv.rs:30-31 | every non-README file name is a key |
| GenerateCsv.DictLastWins | src/generate_csv.rs:31-38 | every key comes from a non-README path, and its entry `[c[n-3], c[n-2], path]` is that of the last path with that file name |
| GenerateCsv.DictOrg | src/generate_csv.rs:25-39 | `org` is `c[n-3]` of the last non-README path, `""` when there is none |
| GenerateCsv.EntryOf | src/generate_csv.rs:33-37 | an entry has three fields and ends with the full path |
| Text.DecimalParses | src/tpf_fasta.rs:63-64 | a printed coordinate parses back to itself |
| Text.LinesUnlines | src/tpf_fasta.rs:52 | splitting newline-terminated lines gives them back |
| Text.SplitWhitespaceTabbed | src/tpf_fasta.rs:57-58 | a tab-separated line of four tokens splits into those tokens |
| Seqs.DedupSpec | src/tpf_fasta.rs:135-139 | deduplication has no duplicates, keeps membership and first-occurrence order |

## Left out

- File and stream I/O are not modelled: opening, creating, appending and
  directory creation. The files read are parameters and the files written
  are results. A panic at an I/O call (an `expect` on open or create) is not
  modelled.
- Partial output is not modelled. When a run panics midway, the files
  written before the panic stay on disk, but the model returns only the
  error.
- The noodles reader, index and `Repository` are modelled as parameters.
  `TpfOutput.CurateFasta` takes the validated name-to-length map as a list
  in some iteration order, and the sequence store as a map from name to
  sequence. An I/O error from the repository (`panic!` at
  src/tpf_fasta.rs:259) and the `todo!()` for a missing index are not
  modelled.
- `HashMap` iteration order is unspecified, so it is a parameter.
  `TpfOutput.CurateOrderIndependent` shows that it does not matter for the
  re-assembly. For `map_fasta_head` it decides which name gets which
  number.
- `validate_fasta` in src/generics.rs (record-level parse errors, UTF-8
  name check) is not modelled. In the splitters, a record the reader rejects
  (`result.unwrap()`) is not modelled either: the records are taken as
  already read.
- Non-UTF-8 text is not modelled. Strings are sequences of Unicode scalar
  values. Output lines are wrapped per character rather than per byte, so
  the `from_utf8(...).unwrap()` panic on a multi-byte character cut at
  byte 60 is not modelled.
- `GenerateCsv.IsReadme`: `to_lowercase` is modelled as ASCII lower-casing.
  No non-ASCII character lower-cases into the letters of `readme` or
  `readme.txt`, so the comparison is the same.
- `MapHeaders.CreateMapping`: `head_counter` is an `i32` and would
  overflow after 2^31 names. The model counts with unbounded integers.
- `SplitByCountLegacy.SplitFileByCountLegacy`: the file counter is a
  default `i32`. Its overflow after 2^31 files is not modelled.
- `SplitByCount.Limit` and `SplitByCount.SplitFileByCount` follow the
  release-build wrap of the `u16` counters. A debug build panics on that
  overflow instead.
- Printing to the terminal (`println!`, including the "Good quality ENS
  format" message) is left out. It does not affect any result.
- The nucleotide complement follows the IUPAC codes A/T, C/G, R/Y, K/M,
  B/V, D/H, with S, W and N their own complements, in upper and lower case.
  Any other character is an error, which the source unwraps into a panic.
- `Nucleotide.ComplementBase`: the complement table of the noodles library
  is not part of this model, so the table above is the IUPAC one. If
  noodles also complements `U`/`u` (to `A`/`a`), a MINUS fragment holding
  `U` gives a sequence in the program and an error in the model. Such a
  table would not be an involution, so `Nucleotide.ComplementTwice` and
  `Nucleotide.ReverseComplementTwice` would then hold only for sequences
  without `U`.
- The `parse_tpf` unit test reads its fixture file from disk
  (tests/tpf_fasta.rs:152-177). The file is not part of this model.
  `TpfFastaExamples.ParseTpfExample` parses the five lines the test quotes
  in its comments instead; only the first and last edit lines are spelled
  out character by character (`FixtureLineText12`, `FixtureLineText84`),
  the middle two are the lines their records are written as.
- The `save_to_fasta` unit test (tests/tpf_fasta.rs:181-205) only asserts
  `true`. It has no counterpart.
- In `split_file_by_count` of src/processors/split_by_count.rs, `fix_head`
  calls `sanitise_header` with one argument. The model passes the run's
  `data_type` as the second argument.
