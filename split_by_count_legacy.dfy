/** The older `split_file_by_count`. The batching is the same; it differs in
    `fix_head`, which always rebuilds each record from its own printed
    definition, and in its file counter, a default-width integer that does
    not wrap at 16 bits. */
module SplitByCountLegacy {
  import opened Wrappers
  import opened Seqs
  import opened Text
  import opened Generics
  import opened SplitByCount

  /** `fix_head`: `clean_headers` is always true, so the `sanitise` argument
      is never consulted and the new definition is the old one printed, as
      a bare name. */
  function FixHeadLegacy(rec: FastaRecord, sanitise: bool): (r: FastaRecord)
    ensures r.sequence == rec.sequence && r.definition.description.None?
  {
    FastaRecord(Definition(Render(rec.definition), None), rec.sequence)
  }

  /** The written header is the old header with one more `>` in front; no
      part of it is lost. */
  lemma {:induction false} FixHeadLegacyHeader(rec: FastaRecord, sanitise: bool)
    ensures Render(FixHeadLegacy(rec, sanitise).definition) == ">" + Render(rec.definition)
    ensures StartsWith(Render(FixHeadLegacy(rec, sanitise).definition), ">>")
  {
    var h := Render(rec.definition);
    assert (">" + h)[..2] == ">>" by {
      assert (">" + h)[1] == h[0];
    }
  }

  function FixAllLegacy(records: seq<FastaRecord>): (r: seq<FastaRecord>)
    ensures |r| == |records|
    ensures forall k :: 0 <= k < |records| ==> r[k] == FixHeadLegacy(records[k], true)
  {
    seq(|records|, k requires 0 <= k < |records| => FixHeadLegacy(records[k], true))
  }

  /** The whole run of the older tool on the records read from the file. */
  function FilesLegacy(fastaFile: string, outputDirectory: string, dataType: string,
                       fastaCount: nat, records: seq<FastaRecord>): Result<seq<Output>, SplitError>
    requires fastaCount < U16Modulus
  {
    match NamePrefix(fastaFile)
    case None => Err(NoFileName)
    case Some(name) =>
      Ok(Outputs(OutDir(outputDirectory, name, dataType), name, fastaCount,
                 AllBatches(FixAllLegacy(records), Limit(fastaCount)), false))
  }

  /** The older `split_file_by_count`, returning the files it writes. */
  method SplitFileByCountLegacy(fastaFile: string, outputDirectory: string, dataType: string,
                                fastaCount: nat, records: seq<FastaRecord>)
    returns (r: Result<seq<Output>, SplitError>)
    requires fastaCount < U16Modulus
    ensures r == FilesLegacy(fastaFile, outputDirectory, dataType, fastaCount, records)
  {
    var grabName := FileName(fastaFile);
    if grabName.None? {
      return Err(NoFileName);
    }
    var actualName := Text.Split(grabName.value, '.')[0];
    var newOutpath := OutDir(outputDirectory, actualName, dataType);
    var counter: nat := 0;
    var fileCounter: nat := 1;
    var cleanHeaders := true;
    var recordList: seq<FastaRecord> := [];
    var written: seq<seq<FastaRecord>> := [];
    var outs: seq<Output> := [];
    ghost var fixed := FixAllLegacy(records);
    for i := 0 to |records|
      invariant Batches(fixed[..i], Limit(fastaCount)) == (written, recordList)
      invariant Tracks(fastaCount, newOutpath, actualName, false, counter, fileCounter, recordList, written, outs)
    {
      var finalRec := FixHeadLegacy(records[i], cleanHeaders);
      assert fixed[..i + 1] == fixed[..i] + [finalRec];
      BatchesSnoc(fixed[..i], finalRec, Limit(fastaCount));
      counter, fileCounter, recordList, written, outs :=
        Collect(fastaCount, newOutpath, actualName, false, finalRec, counter, fileCounter, recordList, written, outs);
    }
    assert fixed[..|records|] == fixed;
    var fullOutpath := OutPath(newOutpath, actualName, fileCounter, fastaCount, |recordList|);
    OutputsSnoc(newOutpath, actualName, fastaCount, written, recordList, false);
    outs := outs + [Output(fullOutpath, recordList)];
    r := Ok(outs);
  }

  /** What a successful run of the older tool writes: the rebuilt records,
      in order, with every file but the last full and the last short. */
  lemma {:induction false} FilesLegacySpec(fastaFile: string, outputDirectory: string, dataType: string,
                        fastaCount: nat, records: seq<FastaRecord>, outs: seq<Output>)
    requires fastaCount < U16Modulus
    requires FilesLegacy(fastaFile, outputDirectory, dataType, fastaCount, records) == Ok(outs)
    ensures Flatten(RecordsOf(outs)) == FixAllLegacy(records)
    ensures |outs| >= 1
    ensures forall k :: 0 <= k < |outs| - 1 ==> |outs[k].records| == Limit(fastaCount)
    ensures |outs[|outs| - 1].records| < Limit(fastaCount)
  {
    AllBatchesSpec(FixAllLegacy(records), Limit(fastaCount));
    assert RecordsOf(outs) == AllBatches(FixAllLegacy(records), Limit(fastaCount));
  }

  /** All files of one run of the older tool have different paths. */
  lemma {:induction false} LegacyPathsDistinct(fastaFile: string, outputDirectory: string, dataType: string,
                            fastaCount: nat, records: seq<FastaRecord>, i: nat, j: nat)
    requires fastaCount < U16Modulus
    requires FilesLegacy(fastaFile, outputDirectory, dataType, fastaCount, records).Ok?
    requires i < j < |FilesLegacy(fastaFile, outputDirectory, dataType, fastaCount, records).value|
    ensures FilesLegacy(fastaFile, outputDirectory, dataType, fastaCount, records).value[i].path !=
            FilesLegacy(fastaFile, outputDirectory, dataType, fastaCount, records).value[j].path
  {
    var name := NamePrefix(fastaFile).value;
    OutputsDistinct(OutDir(outputDirectory, name, dataType), name, fastaCount,
                    AllBatches(FixAllLegacy(records), Limit(fastaCount)), false, i, j);
  }
}
