/** Splitting a FASTA file into files of a fixed number of records
    (`split_file_by_count`): records are collected into a batch that is
    written out whenever a 16-bit counter reaches the requested count, and
    whatever is left, possibly nothing, goes into one last file. */
module SplitByCount {
  import opened Wrappers
  import opened Seqs
  import opened Text
  import opened Generics

  /** A FASTA record: its definition line and its sequence. */
  datatype FastaRecord = FastaRecord(definition: Definition, sequence: string)

  /** One file written: where, and which records in which order. */
  datatype Output = Output(path: string, records: seq<FastaRecord>)

  datatype SplitError =
    | NoFileName                  // `file_name().unwrap()` on a path without one
    | BadHeader(e: HeaderError)   // `sanitise_header` panicking on a short Ensembl header

  const U16Modulus: nat := 65536

  // ---------------------------------------------------------------------
  // Output naming

  /** The components of a path as `Path::components` yields them, leaving
      out the empty ones and `.`. */
  function Components(path: string): seq<string>
  {
    Dropped(Split(path, '/'))
  }

  function Dropped(pieces: seq<string>): (r: seq<string>)
    ensures forall i :: 0 <= i < |r| ==> r[i] != "" && r[i] != "."
  {
    if |pieces| == 0 then []
    else Dropped(pieces[..|pieces| - 1]) +
         (if pieces[|pieces| - 1] in {"", "."} then [] else [pieces[|pieces| - 1]])
  }

  /** `Path::file_name`: the last component, unless there is none or it is
      `..`. */
  function FileName(path: string): (r: Option<string>)
    ensures r.Some? ==> r.value != "" && r.value != "." && r.value != ".." && '/' !in r.value
  {
    var cs := Components(path);
    if |cs| == 0 || cs[|cs| - 1] == ".." then None
    else
      assert '/' !in cs[|cs| - 1] by {
        ComponentsNoSlash(path, |cs| - 1);
      }
      Some(cs[|cs| - 1])
  }

  lemma {:induction false} DroppedFrom(pieces: seq<string>, i: nat)
    requires i < |Dropped(pieces)|
    ensures Dropped(pieces)[i] in pieces
  {
    var p := pieces[..|pieces| - 1];
    if i < |Dropped(p)| {
      DroppedFrom(p, i);
    }
  }

  lemma {:induction false} ComponentsNoSlash(path: string, i: nat)
    requires i < |Components(path)|
    ensures '/' !in Components(path)[i]
  {
    DroppedFrom(Split(path, '/'), i);
    var j :| 0 <= j < |Split(path, '/')| && Split(path, '/')[j] == Components(path)[i];
    if '/' in Components(path)[i] {
      SplitOnPieces(path, {'/'}, j, '/');
    }
  }

  /** The name every output file starts with: the file name up to its
      first `.`. */
  function NamePrefix(path: string): Option<string>
  {
    match FileName(path)
    case None => None
    case Some(name) => Some(Split(name, '.')[0])
  }

  /** A path ending in a plain name has that name as its file name. */
  lemma {:induction false} FileNameOfJoined(dir: string, name: string)
    requires '/' !in name && name != "" && name != "." && name != ".."
    ensures FileName(dir + "/" + name) == Some(name)
  {
    SplitOnAtSep(dir, '/', name, {'/'});
    SplitOnNoSep(name, {'/'});
    var pieces := Split(dir, '/') + [name];
    assert Split(dir + "/" + name, '/') == pieces;
    assert pieces[..|pieces| - 1] == Split(dir, '/');
  }

  /** The files are named after the part of the file name before its first
      `.`. */
  lemma {:induction false} NamePrefixStem(dir: string, stem: string, ext: string)
    requires '/' !in stem && '/' !in ext && '.' !in stem && stem != ""
    ensures NamePrefix(dir + "/" + stem + "." + ext) == Some(stem)
  {
    var name := stem + "." + ext;
    assert '/' !in name;
    assert name != "." && name != ".." by {
      assert |name| >= 2 && name[0] == stem[0];
      if |name| == 2 { assert name[1] == '.'; assert stem == [name[0]]; }
    }
    assert dir + "/" + stem + "." + ext == dir + "/" + name;
    FileNameOfJoined(dir, name);
    SplitOnFirstSep(stem, '.', ext, {'.'});
  }

  /** The directory the batches go to. */
  function OutDir(outputDirectory: string, name: string, dataType: string): string
  {
    outputDirectory + "/" + name + "/" + dataType + "/"
  }

  /** The path of batch `label` holding `len` records. */
  function OutPath(dir: string, name: string, fileNo: nat, count: nat, len: nat): string
  {
    dir + name + "_f" + Decimal(fileNo) + CountSuffix(count, len)
  }

  /** The part of a batch path after the file number. */
  function CountSuffix(count: nat, len: nat): string
  {
    "_c" + Decimal(count) + "-a" + Decimal(len) + ".fa"
  }

  // ---------------------------------------------------------------------
  // fix_head

  /** `fix_head`: with `sanitise` the definition becomes the
      `sanitise_header` string as a bare name, otherwise the record is
      kept. */
  function FixHead(rec: FastaRecord, sanitise: bool, dataType: string): (r: Result<FastaRecord, HeaderError>)
    ensures !sanitise ==> r == Ok(rec)
    ensures r.Ok? ==> r.value.sequence == rec.sequence
    ensures sanitise ==> (r.Ok? <==> SanitiseHeader(rec.definition, dataType).Ok?)
  {
    if sanitise then
      match SanitiseHeader(rec.definition, dataType)
      case Err(e) => Err(e)
      case Ok(header) => Ok(FastaRecord(Definition(header, None), rec.sequence))
    else Ok(rec)
  }

  /** The sanitised string already starts with `>`, and the writer puts its
      own `>` in front of the definition: the written header line begins
      with `>>`. */
  lemma {:induction false} FixHeadDoubleMarker(rec: FastaRecord, dataType: string)
    requires FixHead(rec, true, dataType).Ok?
    ensures StartsWith(Render(FixHead(rec, true, dataType).value.definition), ">>")
  {
    var h := SanitiseHeader(rec.definition, dataType).value;
    assert h[0] == '>';
  }

  /** Sanitising a definition without `ENS` and with a space-free name
      writes `>>gene_id=` and the name. */
  lemma {:induction false} FixHeadPlain(rec: FastaRecord, dataType: string)
    requires !Contains(Render(rec.definition), "ENS") && ' ' !in rec.definition.name
    ensures FixHead(rec, true, dataType) ==
            Ok(FastaRecord(Definition(">gene_id=" + rec.definition.name, None), rec.sequence))
  {
    PlainHeader(rec.definition, dataType);
  }

  // ---------------------------------------------------------------------
  // Batching

  /** The batch size the loop actually produces: the 16-bit counter is
      incremented before the comparison, so a count of 0 is met only when
      the counter wraps, after 65536 records. */
  function Limit(count: nat): (l: nat)
    requires count < U16Modulus
    ensures 0 < l <= U16Modulus
    ensures count > 0 ==> l == count
  {
    if count == 0 then U16Modulus else count
  }

  /** The loop's state after the records `s`: the batches written so far and
      the records collected since the last write. */
  function Batches<T>(s: seq<T>, limit: nat): (seq<seq<T>>, seq<T>)
  {
    if |s| == 0 then ([], [])
    else
      var (full, pending) := Batches(s[..|s| - 1], limit);
      var next := pending + [s[|s| - 1]];
      if |next| == limit then (full + [next], []) else (full, next)
  }

  /** Every batch written inside the loop has exactly `limit` records, the
      pending ones are fewer, and together, in order, they are the input. */
  lemma {:induction false} BatchesSpec<T>(s: seq<T>, limit: nat)
    requires limit > 0
    ensures Flatten(Batches(s, limit).0) + Batches(s, limit).1 == s
    ensures forall k :: 0 <= k < |Batches(s, limit).0| ==> |Batches(s, limit).0[k]| == limit
    ensures |Batches(s, limit).1| < limit
  {
    if |s| > 0 {
      var p := s[..|s| - 1];
      BatchesSpec(p, limit);
      var (full, pending) := Batches(p, limit);
      var next := pending + [s[|s| - 1]];
      assert s == p + [s[|s| - 1]];
      if |next| == limit {
        FlattenSnoc(full, next);
      }
    }
  }

  /** The files of the whole run: the batches written in the loop, then
      the pending records. */
  function AllBatches<T>(s: seq<T>, limit: nat): seq<seq<T>>
  {
    Batches(s, limit).0 + [Batches(s, limit).1]
  }

  /** All batches together are the input; all but the last are full and
      the last one is short, empty exactly when the input is a multiple of
      the limit. */
  lemma {:induction false} AllBatchesSpec<T>(s: seq<T>, limit: nat)
    requires limit > 0
    ensures Flatten(AllBatches(s, limit)) == s
    ensures forall k :: 0 <= k < |AllBatches(s, limit)| - 1 ==> |AllBatches(s, limit)[k]| == limit
    ensures |AllBatches(s, limit)[|AllBatches(s, limit)| - 1]| < limit
    ensures |s| == (|AllBatches(s, limit)| - 1) * limit + |AllBatches(s, limit)[|AllBatches(s, limit)| - 1]|
  {
    BatchesSpec(s, limit);
    var (full, pending) := Batches(s, limit);
    FlattenSnoc(full, pending);
    FlattenUniform(full, limit);
  }

  lemma {:induction false} FlattenUniform<T>(ss: seq<seq<T>>, limit: nat)
    requires forall k :: 0 <= k < |ss| ==> |ss[k]| == limit
    ensures |Flatten(ss)| == |ss| * limit
  {
    if |ss| > 0 {
      FlattenUniform(ss[1..], limit);
    }
  }

  /** Fewer records than the limit are all pending: nothing is written in
      the loop. */
  lemma {:induction false} BatchesShort<T>(s: seq<T>, limit: nat)
    requires |s| < limit
    ensures Batches(s, limit) == ([], s)
  {
    if |s| > 0 {
      BatchesShort(s[..|s| - 1], limit);
      assert s[..|s| - 1] + [s[|s| - 1]] == s;
    }
  }

  /** With a count of 0 and fewer than 65536 records, everything goes into
      the one final file. */
  lemma {:induction false} ZeroCountSingleFile<T>(s: seq<T>)
    requires |s| < U16Modulus
    ensures AllBatches(s, Limit(0)) == [s]
  {
    BatchesShort(s, Limit(0));
  }

  /** The numbered files for `batches`. With `wrap` the file counter is a
      16-bit integer that wraps after 65535. */
  function Outputs(dir: string, name: string, count: nat, batches: seq<seq<FastaRecord>>, wrap: bool)
    : (r: seq<Output>)
    ensures |r| == |batches|
    ensures forall k :: 0 <= k < |r| ==> r[k].records == batches[k]
  {
    seq(|batches|, k requires 0 <= k < |batches| =>
      Output(OutPath(dir, name, Label(k + 1, wrap), count, |batches[k]|), batches[k]))
  }

  function Label(k: nat, wrap: bool): nat
  {
    if wrap then k % U16Modulus else k
  }

  /** Different file numbers give different paths. */
  lemma {:induction false} OutPathsDistinct(dir: string, name: string, a: nat, b: nat, count: nat, la: nat, lb: nat)
    requires a != b
    ensures OutPath(dir, name, a, count, la) != OutPath(dir, name, b, count, lb)
  {
    var p := dir + name + "_f";
    var ra, rb := CountSuffix(count, la), CountSuffix(count, lb);
    assert OutPath(dir, name, a, count, la) == p + (Decimal(a) + ra);
    assert OutPath(dir, name, b, count, lb) == p + (Decimal(b) + rb);
    if OutPath(dir, name, a, count, la) == OutPath(dir, name, b, count, lb) {
      assert Decimal(a) + ra == (p + (Decimal(a) + ra))[|p|..];
      assert Decimal(b) + rb == (p + (Decimal(b) + rb))[|p|..];
      assert ra[0] == '_' && rb[0] == '_';
      DigitsPrefixUnique(Decimal(a), ra, Decimal(b), rb);
      DecimalInjective(a, b);
    }
  }

  /** No two files of one run share a path while the 16-bit file counter
      has not wrapped. */
  lemma {:induction false} OutputsDistinct(dir: string, name: string, count: nat, batches: seq<seq<FastaRecord>>, wrap: bool,
                        i: nat, j: nat)
    requires i < j < |batches|
    requires wrap ==> |batches| < U16Modulus
    ensures Outputs(dir, name, count, batches, wrap)[i].path != Outputs(dir, name, count, batches, wrap)[j].path
  {
    OutPathsDistinct(dir, name, Label(i + 1, wrap), Label(j + 1, wrap), count, |batches[i]|, |batches[j]|);
  }

  /** The whole run on the records read from the file. */
  function Files(fastaFile: string, outputDirectory: string, dataType: string, sanitise: bool,
                 fastaCount: nat, records: seq<FastaRecord>): Result<seq<Output>, SplitError>
    requires fastaCount < U16Modulus
  {
    match NamePrefix(fastaFile)
    case None => Err(NoFileName)
    case Some(name) =>
      match BatchFiles(OutDir(outputDirectory, name, dataType), name, fastaCount, records, sanitise, dataType)
      case Err(e) => Err(BadHeader(e))
      case Ok(outs) => Ok(outs)
  }

  /** The files written into `dir` once the name is known: the fixed
      records in batches, the file counter 16 bits wide. */
  function BatchFiles(dir: string, name: string, fastaCount: nat, records: seq<FastaRecord>,
                      sanitise: bool, dataType: string): Result<seq<Output>, HeaderError>
    requires fastaCount < U16Modulus
  {
    match FixAll(records, sanitise, dataType)
    case Err(e) => Err(e)
    case Ok(fixed) => Ok(Outputs(dir, name, fastaCount, AllBatches(fixed, Limit(fastaCount)), true))
  }

  /** Every record through `fix_head`; the first failure stops the run. */
  function FixAll(records: seq<FastaRecord>, sanitise: bool, dataType: string): (r: Result<seq<FastaRecord>, HeaderError>)
    ensures r.Ok? ==> |r.value| == |records|
    ensures r.Ok? ==> forall k :: 0 <= k < |records| ==> FixHead(records[k], sanitise, dataType) == Ok(r.value[k])
  {
    if |records| == 0 then Ok([])
    else match FixAll(records[..|records| - 1], sanitise, dataType)
      case Err(e) => Err(e)
      case Ok(prev) =>
        match FixHead(records[|records| - 1], sanitise, dataType)
        case Err(e) => Err(e)
        case Ok(rec) => Ok(prev + [rec])
  }

  lemma {:induction false} FixAllErrSticky(records: seq<FastaRecord>, sanitise: bool, dataType: string, n: nat)
    requires n <= |records| && FixAll(records[..n], sanitise, dataType).Err?
    ensures FixAll(records, sanitise, dataType) == FixAll(records[..n], sanitise, dataType)
    decreases |records| - n
  {
    if n < |records| {
      assert records[..n + 1][..n] == records[..n];
      FixAllErrSticky(records, sanitise, dataType, n + 1);
    } else {
      assert records[..n] == records;
    }
  }

  /** Without sanitising every record passes through unchanged. */
  lemma {:induction false} FixAllKeeps(records: seq<FastaRecord>, dataType: string)
    ensures FixAll(records, false, dataType) == Ok(records)
  {
    if |records| > 0 {
      FixAllKeeps(records[..|records| - 1], dataType);
      assert records[..|records| - 1] + [records[|records| - 1]] == records;
    }
  }

  function RecordsOf(outs: seq<Output>): (r: seq<seq<FastaRecord>>)
    ensures |r| == |outs| && forall k :: 0 <= k < |outs| ==> r[k] == outs[k].records
  {
    seq(|outs|, k requires 0 <= k < |outs| => outs[k].records)
  }

  /** What a successful run writes: the fixed records, in order, over the
      files; every file but the last holds the count (65536 for a count of
      0), the last fewer; file k is numbered k modulo 65536. */
  lemma {:induction false} FilesSpec(fastaFile: string, outputDirectory: string, dataType: string, sanitise: bool,
                  fastaCount: nat, records: seq<FastaRecord>, outs: seq<Output>)
    requires fastaCount < U16Modulus
    requires Files(fastaFile, outputDirectory, dataType, sanitise, fastaCount, records) == Ok(outs)
    ensures Flatten(RecordsOf(outs)) == FixAll(records, sanitise, dataType).value
    ensures |outs| >= 1
    ensures forall k :: 0 <= k < |outs| - 1 ==> |outs[k].records| == Limit(fastaCount)
    ensures |outs[|outs| - 1].records| < Limit(fastaCount)
    ensures forall k :: 0 <= k < |outs| ==>
      var name := NamePrefix(fastaFile).value;
      outs[k].path == OutPath(OutDir(outputDirectory, name, dataType), name, (k + 1) % U16Modulus,
                              fastaCount, |outs[k].records|)
  {
    var fixed := FixAll(records, sanitise, dataType).value;
    AllBatchesSpec(fixed, Limit(fastaCount));
    assert RecordsOf(outs) == AllBatches(fixed, Limit(fastaCount));
  }

  lemma {:induction false} BatchesSnoc<T>(s: seq<T>, x: T, limit: nat)
    ensures Batches(s + [x], limit) ==
            var next := Batches(s, limit).1 + [x];
            if |next| == limit then (Batches(s, limit).0 + [next], []) else (Batches(s, limit).0, next)
  {
    assert (s + [x])[..|s|] == s;
  }

  lemma {:induction false} OutputsSnoc(dir: string, name: string, count: nat, batches: seq<seq<FastaRecord>>, b: seq<FastaRecord>, wrap: bool)
    ensures Outputs(dir, name, count, batches + [b], wrap) ==
            Outputs(dir, name, count, batches, wrap) + [Output(OutPath(dir, name, Label(|batches| + 1, wrap), count, |b|), b)]
  {
  }

  lemma {:induction false} FixAllSnoc(records: seq<FastaRecord>, i: nat, sanitise: bool, dataType: string, fixed: seq<FastaRecord>, rec: FastaRecord)
    requires i < |records|
    requires FixAll(records[..i], sanitise, dataType) == Ok(fixed)
    requires FixHead(records[i], sanitise, dataType) == Ok(rec)
    ensures FixAll(records[..i + 1], sanitise, dataType) == Ok(fixed + [rec])
  {
    assert records[..i + 1][..i] == records[..i];
  }

  /** The loop's counters and outputs agree with the batches written so far
      and the pending records. */
  predicate Tracks(fastaCount: nat, dir: string, name: string, wrap: bool, counter: nat, fileCounter: nat,
                   recordList: seq<FastaRecord>, written: seq<seq<FastaRecord>>, outs: seq<Output>)
    requires fastaCount < U16Modulus
  {
    && counter == |recordList| < Limit(fastaCount)
    && fileCounter == Label(|written| + 1, wrap)
    && outs == Outputs(dir, name, fastaCount, written, wrap)
  }

  /** The 16-bit record counter, incremented with wrap-around, equals the
      count exactly when the batch reaches its limit. */
  lemma {:induction false} CounterReaches(counter: nat, fastaCount: nat)
    requires fastaCount < U16Modulus && counter < Limit(fastaCount)
    ensures (counter + 1) % U16Modulus == fastaCount <==> counter + 1 == Limit(fastaCount)
  {
  }

  /** Incrementing a file number gives the next one, wrapping when 16 bits
      wide. */
  lemma {:induction false} LabelNext(k: nat, wrap: bool)
    ensures (if wrap then (Label(k, wrap) + 1) % U16Modulus else Label(k, wrap) + 1) == Label(k + 1, wrap)
  {
  }

  /** One turn of the loop after `fix_head`: the record joins the batch,
      and the batch is written and the counters reset when the 16-bit
      counter reaches the count. With `wrap` the file counter is 16 bits
      wide. */
  method Collect(fastaCount: nat, dir: string, name: string, wrap: bool, rec: FastaRecord,
                 counter: nat, fileCounter: nat, recordList: seq<FastaRecord>,
                 written: seq<seq<FastaRecord>>, outs: seq<Output>)
    returns (counter': nat, fileCounter': nat, recordList': seq<FastaRecord>,
             written': seq<seq<FastaRecord>>, outs': seq<Output>)
    requires fastaCount < U16Modulus
    requires Tracks(fastaCount, dir, name, wrap, counter, fileCounter, recordList, written, outs)
    ensures var next := recordList + [rec];
            (written', recordList') ==
            if |next| == Limit(fastaCount) then (written + [next], []) else (written, next)
    ensures Tracks(fastaCount, dir, name, wrap, counter', fileCounter', recordList', written', outs')
  {
    counter', fileCounter', recordList', written', outs' := counter, fileCounter, recordList, written, outs;
    CounterReaches(counter, fastaCount);
    LabelNext(|written| + 1, wrap);
    counter' := (counter' + 1) % U16Modulus;
    recordList' := recordList' + [rec];
    if counter' == fastaCount {
      var fullOutpath := OutPath(dir, name, fileCounter', fastaCount, |recordList'|);
      OutputsSnoc(dir, name, fastaCount, written', recordList', wrap);
      outs' := outs' + [Output(fullOutpath, recordList')];
      written' := written' + [recordList'];
      fileCounter' := if wrap then (fileCounter' + 1) % U16Modulus else fileCounter' + 1;
      counter' := 0;
      recordList' := [];
    }
  }

  /** `split_file_by_count`, returning the files it writes. */
  method SplitFileByCount(fastaFile: string, outputDirectory: string, dataType: string, sanitise: bool,
                          fastaCount: nat, records: seq<FastaRecord>)
    returns (r: Result<seq<Output>, SplitError>)
    requires fastaCount < U16Modulus
    ensures r == Files(fastaFile, outputDirectory, dataType, sanitise, fastaCount, records)
  {
    var grabName := FileName(fastaFile);
    if grabName.None? {
      return Err(NoFileName);
    }
    var actualName := Text.Split(grabName.value, '.')[0];
    var newOutpath := OutDir(outputDirectory, actualName, dataType);
    var written := WriteBatches(newOutpath, actualName, fastaCount, records, sanitise, dataType);
    match written
    case Err(e) => r := Err(BadHeader(e));
    case Ok(outs) => r := Ok(outs);
  }

  /** The record loop of `split_file_by_count` and the final batch after it. */
  method WriteBatches(dir: string, name: string, fastaCount: nat, records: seq<FastaRecord>,
                      sanitise: bool, dataType: string)
    returns (r: Result<seq<Output>, HeaderError>)
    requires fastaCount < U16Modulus
    ensures r == BatchFiles(dir, name, fastaCount, records, sanitise, dataType)
  {
    var counter: nat := 0;
    var fileCounter: nat := 1;
    var recordList: seq<FastaRecord> := [];
    var written: seq<seq<FastaRecord>> := [];
    ghost var fixed: seq<FastaRecord> := [];
    var outs: seq<Output> := [];
    for i := 0 to |records|
      invariant FixAll(records[..i], sanitise, dataType) == Ok(fixed)
      invariant Batches(fixed, Limit(fastaCount)) == (written, recordList)
      invariant Tracks(fastaCount, dir, name, true, counter, fileCounter, recordList, written, outs)
    {
      var finalRec := FixHead(records[i], sanitise, dataType);
      if finalRec.Err? {
        BatchFilesErr(dir, name, fastaCount, records, sanitise, dataType, i, fixed);
        return Err(finalRec.error);
      }
      FixAllSnoc(records, i, sanitise, dataType, fixed, finalRec.value);
      BatchesSnoc(fixed, finalRec.value, Limit(fastaCount));
      counter, fileCounter, recordList, written, outs :=
        Collect(fastaCount, dir, name, true, finalRec.value, counter, fileCounter, recordList, written, outs);
      fixed := fixed + [finalRec.value];
    }
    var fullOutpath := OutPath(dir, name, fileCounter, fastaCount, |recordList|);
    BatchFilesOk(dir, name, fastaCount, records, sanitise, dataType, fixed, written, recordList);
    outs := outs + [Output(fullOutpath, recordList)];
    r := Ok(outs);
  }

  /** A record whose header cannot be fixed ends the run with its error. */
  lemma {:induction false} BatchFilesErr(dir: string, name: string, fastaCount: nat, records: seq<FastaRecord>,
                                         sanitise: bool, dataType: string, i: nat, fixed: seq<FastaRecord>)
    requires fastaCount < U16Modulus && i < |records|
    requires FixAll(records[..i], sanitise, dataType) == Ok(fixed)
    requires FixHead(records[i], sanitise, dataType).Err?
    ensures BatchFiles(dir, name, fastaCount, records, sanitise, dataType) ==
            Err(FixHead(records[i], sanitise, dataType).error)
  {
    assert records[..i + 1][..i] == records[..i];
    FixAllErrSticky(records, sanitise, dataType, i + 1);
  }

  /** With every record fixed, the files are the full batches and the
      pending records, numbered on. */
  lemma {:induction false} BatchFilesOk(dir: string, name: string, fastaCount: nat, records: seq<FastaRecord>,
                                        sanitise: bool, dataType: string, fixed: seq<FastaRecord>,
                                        written: seq<seq<FastaRecord>>, recordList: seq<FastaRecord>)
    requires fastaCount < U16Modulus
    requires FixAll(records[..|records|], sanitise, dataType) == Ok(fixed)
    requires Batches(fixed, Limit(fastaCount)) == (written, recordList)
    ensures BatchFiles(dir, name, fastaCount, records, sanitise, dataType) ==
            Ok(Outputs(dir, name, fastaCount, written, true) +
               [Output(OutPath(dir, name, Label(|written| + 1, true), fastaCount, |recordList|), recordList)])
  {
    assert records[..|records|] == records;
    OutputsSnoc(dir, name, fastaCount, written, recordList, true);
  }
}
