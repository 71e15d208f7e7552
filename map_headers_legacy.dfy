/** The older header-mapping tool. Its mapping, table and rewrite steps are
    the same code as `MapHeaders`; what differs is where the names come
    from: the records of the file in file order, with every record that
    fails to parse silently skipped. */
module MapHeadersLegacy {
  import opened Wrappers
  import opened Seqs
  import MapHeaders
  import Text

  /** The names `validate_fasta` collects: one read result per record, in
      file order, `None` for a record the reader rejects. */
  function ValidNames(results: seq<Option<string>>): seq<string>
  {
    if |results| == 0 then []
    else ValidNames(results[..|results| - 1]) +
         (match results[|results| - 1] case None => [] case Some(n) => [n])
  }

  lemma {:induction false} ValidNamesAppend(a: seq<Option<string>>, b: seq<Option<string>>)
    ensures ValidNames(a + b) == ValidNames(a) + ValidNames(b)
  {
    if |b| == 0 {
      assert a + b == a;
    } else {
      assert (a + b)[..|a + b| - 1] == a + b[..|b| - 1];
      ValidNamesAppend(a, b[..|b| - 1]);
    }
  }

  /** Exactly the names of the records that were read, each once per
      record: the rejected records are dropped, the others kept. */
  lemma {:induction false} ValidNamesSpec(results: seq<Option<string>>, n: string)
    ensures n in ValidNames(results) <==> Some(n) in results
    ensures Count(ValidNames(results), n) == Count(results, Some(n))
    ensures |ValidNames(results)| == |results| - Count(results, None)
  {
    if |results| > 0 {
      var p := results[..|results| - 1];
      ValidNamesSpec(p, n);
      assert results == p + [results[|results| - 1]];
      var tail := match results[|results| - 1] case None => [] case Some(m) => [m];
      CountAppend(ValidNames(p), tail, n);
      CountPositive(ValidNames(results), n);
      CountPositive(results, Some(n));
    }
  }

  /** When every record is read, the names are the records' names in file
      order. */
  lemma {:induction false} ValidNamesAllRead(names: seq<string>)
    ensures ValidNames(seq(|names|, i requires 0 <= i < |names| => Some(names[i]))) == names
  {
    if |names| > 0 {
      var p := names[..|names| - 1];
      ValidNamesAllRead(p);
      var rs := seq(|names|, i requires 0 <= i < |names| => Some(names[i]));
      assert rs[..|rs| - 1] == seq(|p|, i requires 0 <= i < |p| => Some(p[i]));
    }
  }

  /** `map_fasta_head` of the older tool after reading the records. */
  method MapFastaHeadLegacy(results: seq<Option<string>>, input: string, replacer: string)
    returns (table: string, fasta: Result<string, MapHeaders.MapError>)
    ensures exists mapped :: (MapHeaders.IsMapping(mapped, ValidNames(results), replacer) &&
            table == Text.Unlines(MapHeaders.MappingLines(mapped)) &&
            fasta == MapHeaders.MappedFasta(input, mapped))
  {
    var names := ValidNames(results);
    var newMap := MapHeaders.CreateMapping(names, replacer);
    table := MapHeaders.SaveMapping(newMap);
    fasta := MapHeaders.CreateMappedFasta(input, newMap);
  }
}
