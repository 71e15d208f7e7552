/** The behaviour the repository's unit tests for the TPF pipeline pin
    down, proved of the model. */
module TpfFastaExamples {
  import opened Wrappers
  import opened Seqs
  import opened Text
  import opened TpfFasta

  /** A reverse complement computed base by base. */
  lemma {:induction false} ReverseComplementIs(s: string, expected: string)
    requires |s| == |expected|
    requires forall i :: 0 <= i < |s| ==> Nucleotide.ComplementBase(s[|s| - 1 - i]) == Some(expected[i])
    ensures Nucleotide.ReverseComplement(s) == Ok(expected)
  {
    assert Nucleotide.Complementable(s) by {
      forall j | 0 <= j < |s| ensures Nucleotide.ComplementBase(s[j]).Some? {
        var i := |s| - 1 - j;
        assert Nucleotide.ComplementBase(s[|s| - 1 - i]) == Some(expected[i]);
      }
    }
    var r := Nucleotide.ReverseComplement(s).value;
    assert forall i :: 0 <= i < |s| ==> r[i] == expected[i];
    assert r == expected;
  }

  lemma {:induction false} CheckOrientationMinus()
    ensures CheckOrientation(Some("ATGC"), "MINUS") == Ok("GCAT")
  {
    ReverseComplementIs("ATGC", "GCAT");
  }

  lemma {:induction false} CheckOrientationPlus()
    ensures CheckOrientation(Some("ATGC"), "PLUS") == Ok("ATGC")
  {
  }

  const R12 := Tpf("SCAFFOLD_12", 1, 900734, "RL_3", "MINUS")
  const R50 := Tpf("SCAFFOLD_50", 1, 61000, "RL_3", "PLUS")
  const R26 := Tpf("SCAFFOLD_26", 1, 201195, "RL_3_unloc_1", "PLUS")
  const R84 := Tpf("SCAFFOLD_84", 1, 2000, "SCAFFOLD_84", "PLUS")

  const GapLine := "GAP\tTYPE-2\t200"

  const Line12 := FormatLine(R12)
  const Line50 := FormatLine(R50)
  const Line26 := FormatLine(R26)
  const Line84 := FormatLine(R84)

  /** The curated-subset TPF of the `parse_tpf` test: the lines the four
      records are written as, with a gap line after the first. */
  const FixtureLines: seq<string> := [Line12, GapLine, Line50, Line26, Line84]

  /** A written line, field by field. */
  lemma {:induction false} FormatLineSpelled(t: Tpf, ds: string, de: string)
    requires Decimal(t.startCoord) == ds && Decimal(t.endCoord) == de
    ensures FormatLine(t) ==
      "?\t" + t.oriScaffold + ":" + ds + "-" + de + "\t" + t.newScaffold + "\t" + t.orientation
  {
  }

  lemma {:induction false} Decimal900734()
    ensures Decimal(900734) == "900734"
  {
    assert Decimal(9) == "9" && Decimal(90) == "90" && Decimal(900) == "900";
    assert Decimal(9007) == "9007" && Decimal(90073) == "90073";
  }

  lemma {:induction false} Decimal2000()
    ensures Decimal(2000) == "2000"
  {
    assert Decimal(2) == "2" && Decimal(20) == "20" && Decimal(200) == "200";
  }

  lemma {:induction false} JoinedText12()
    ensures "?\t" + "SCAFFOLD_12" + ":" + "1" + "-" + "900734" + "\t" + "RL_3" + "\t" + "MINUS" ==
            "?\tSCAFFOLD_12:1-900734\tRL_3\tMINUS"
  {
  }

  lemma {:induction false} JoinedText84()
    ensures "?\t" + "SCAFFOLD_84" + ":" + "1" + "-" + "2000" + "\t" + "SCAFFOLD_84" + "\t" + "PLUS" ==
            "?\tSCAFFOLD_84:1-2000\tSCAFFOLD_84\tPLUS"
  {
  }

  /** The first and last edit lines, spelled out as they appear in the file. */
  lemma {:induction false} FixtureLineText12()
    ensures Line12 == "?\tSCAFFOLD_12:1-900734\tRL_3\tMINUS"
  {
    Decimal900734();
    assert Decimal(1) == "1";
    FormatLineSpelled(R12, "1", "900734");
    JoinedText12();
  }

  lemma {:induction false} FixtureLineText84()
    ensures Line84 == "?\tSCAFFOLD_84:1-2000\tSCAFFOLD_84\tPLUS"
  {
    Decimal2000();
    assert Decimal(1) == "1";
    FormatLineSpelled(R84, "1", "2000");
    JoinedText84();
  }

  /** The characters of the fixture's names and orientations. */
  predicate PlainChar(c: char)
  {
    'A' <= c <= 'Z' || 'a' <= c <= 'z' || '0' <= c <= '9' || c == '_'
  }

  predicate PlainName(s: string)
  {
    |s| > 0 && forall i :: 0 <= i < |s| ==> PlainChar(s[i])
  }

  lemma {:induction false} PlainNameFits(s: string)
    requires PlainName(s)
    ensures NoWhitespace(s) && ':' !in s
  {
  }

  /** A record with plain names fits the TPF line format. */
  lemma {:induction false} PlainWritable(t: Tpf)
    requires PlainName(t.oriScaffold) && PlainName(t.newScaffold) && PlainName(t.orientation)
    requires t.startCoord <= UsizeMax && t.endCoord <= UsizeMax
    ensures Writable(t)
  {
    PlainNameFits(t.oriScaffold);
    PlainNameFits(t.newScaffold);
    PlainNameFits(t.orientation);
  }

  /** One more line extends a parsed prefix: a gap line adds nothing, an
      edit line that parses adds its record. */
  lemma {:induction false} ParseLinesPush(p: seq<string>, line: string, prev: seq<Tpf>)
    requires ParseLines(p) == Ok(prev)
    ensures !IsEditLine(line) ==> ParseLines(p + [line]) == Ok(prev)
    ensures IsEditLine(line) && ParseLine(line).Ok? ==>
      ParseLines(p + [line]) == Ok(prev + [ParseLine(line).value])
  {
    assert (p + [line])[..|p|] == p;
    assert (p + [line])[|p|] == line;
  }

  lemma {:induction false} FiveLines(a: string, b: string, c: string, d: string, e: string)
    ensures [a, b] + [c, d] + [e] == [a, b, c, d, e]
  {
  }

  /** An edit line followed by a gap line parses to the edit line's record. */
  lemma {:induction false} ParseEditGap(l: string, gap: string, t: Tpf)
    requires IsEditLine(l) && ParseLine(l) == Ok(t) && !IsEditLine(gap)
    ensures ParseLines([l, gap]) == Ok([t])
  {
    var empty: seq<string> := [];
    ParseLinesPush(empty, l, []);
    assert empty + [l] == [l];
    assert [] + [t] == [t];
    ParseLinesPush([l], gap, [t]);
    assert [l] + [gap] == [l, gap];
  }

  /** Two more edit lines that parse add their two records. */
  lemma {:induction false} ParseTwoMore(p: seq<string>, a: string, b: string, prev: seq<Tpf>, ta: Tpf, tb: Tpf)
    requires ParseLines(p) == Ok(prev)
    requires IsEditLine(a) && ParseLine(a) == Ok(ta)
    requires IsEditLine(b) && ParseLine(b) == Ok(tb)
    ensures ParseLines(p + [a, b]) == Ok(prev + [ta, tb])
  {
    ParseLinesPush(p, a, prev);
    ParseLinesPush(p + [a], b, prev + [ta]);
    assert p + [a] + [b] == p + [a, b];
    assert prev + [ta] + [tb] == prev + [ta, tb];
  }

  lemma {:induction false} Line12Parses()
    ensures IsEditLine(Line12)
    ensures ParseLine(Line12) == Ok(Tpf("SCAFFOLD_12", 1, 900734, "SUPER_3", "MINUS"))
  {
    PlainWritable(R12);
    ParseFormatLine(R12);
    RenameScaffoldRewrites();
  }

  lemma {:induction false} Line50Parses()
    ensures IsEditLine(Line50) && ParseLine(Line50).Ok?
  {
    PlainWritable(R50);
    ParseFormatLine(R50);
  }

  lemma {:induction false} Line26Parses()
    ensures IsEditLine(Line26) && ParseLine(Line26).Ok?
  {
    PlainWritable(R26);
    ParseFormatLine(R26);
  }

  lemma {:induction false} Line84Parses()
    ensures IsEditLine(Line84)
    ensures ParseLine(Line84) == Ok(Tpf("SCAFFOLD_84", 1, 2000, "SCAFFOLD_84", "PLUS"))
  {
    PlainWritable(R84);
    ParseFormatLine(R84);
    RenameScaffoldKeeps();
  }

  /** The gap line is skipped, the four edit lines give four records, the
      first renamed to `SUPER_3` and the last kept as it is. */
  lemma {:induction false} ParseTpfExample()
    ensures ParseLines(FixtureLines).Ok?
    ensures |ParseLines(FixtureLines).value| == 4
    ensures ParseLines(FixtureLines).value[0] == Tpf("SCAFFOLD_12", 1, 900734, "SUPER_3", "MINUS")
    ensures ParseLines(FixtureLines).value[3] == Tpf("SCAFFOLD_84", 1, 2000, "SCAFFOLD_84", "PLUS")
  {
    Line12Parses();
    Line50Parses();
    Line26Parses();
    Line84Parses();
    assert !IsEditLine(GapLine);
    ParseEditGap(Line12, GapLine, ParseLine(Line12).value);
    ParseTwoMore([Line12, GapLine], Line50, Line26, [ParseLine(Line12).value],
                 ParseLine(Line50).value, ParseLine(Line26).value);
    ParseLinesPush([Line12, GapLine] + [Line50, Line26], Line84,
                   [ParseLine(Line12).value] + [ParseLine(Line50).value, ParseLine(Line26).value]);
    FiveLines(Line12, GapLine, Line50, Line26, Line84);
  }

  const T1 := Tpf("scaffold1", 1, 100, "newScaffold1", "PLUS")
  const T2 := Tpf("scaffold2", 1, 100, "newScaffold2", "PLUS")
  const T3 := Tpf("scaffold1", 1, 100, "newScaffold1", "PLUS")

  lemma {:induction false} GetUniquesExample()
    ensures Dedup(NewNames([T1, T2, T3])) == ["newScaffold1", "newScaffold2"]
  {
    var names := NewNames([T1, T2, T3]);
    assert names[..1][..0] == [];
    assert Dedup(names[..1]) == ["newScaffold1"];
    assert names[..2][..1] == names[..1];
    assert Dedup(names[..2]) == ["newScaffold1", "newScaffold2"];
    assert names[..2] == names[..|names| - 1];
  }

  lemma {:induction false} SubsetExample()
    ensures |Subset([T1, T2, T3], "scaffold1")| == 2
  {
    var s := [T1, T2, T3];
    assert s[..1][..0] == [];
    assert Subset(s[..1], "scaffold1") == [T1];
    assert s[..2][..1] == s[..1];
    assert Subset(s[..2], "scaffold1") == [T1];
    assert s[..2] == s[..|s| - 1];
  }

  const Head := "AATGGCCGG"
  const Middle := "CGCGTTAAACC"
  const Tail := "CAATGCCCCGGTTAANNGCTCGTCGCTTGCTTCGCAAAA"
  const Source := Head + Middle + Tail

  lemma {:induction false} ParseSeqExample()
    ensures Fragment(Source, Tpf("scaffold1", 3, 5, "newScaffold1", "PLUS")) == Ok("TGG")
    ensures Fragment(Source, Tpf("scaffold2", 10, 20, "newScaffold2", "MINUS")) == Ok("GGTTTAACGCG")
    ensures Fragment(Source, Tpf("scaffold1", 1, 58, "newScaffold1", "PLUS")) == Ok(Source[..58])
  {
    assert |Source| == 59;
    assert Source[2..5] == Head[2..5];
    assert Head[2..5] == "TGG";
    assert Source[9..20] == Middle;
    ReverseComplementIs(Middle, "GGTTTAACGCG");
  }

  /** An end coordinate past the sequence panics rather than truncating. */
  lemma {:induction false} ParseSeqBoundsError()
    ensures ParseSeqSpec(Some(Source), [Tpf("scaffold1", 10, 60, "newScaffold1", "PLUS")]) == Err(SliceOutOfRange)
  {
    var tpfs := [Tpf("scaffold1", 10, 60, "newScaffold1", "PLUS")];
    assert |Source| == 59;
    assert SliceInclusive(Source, 10, 60) == None;
    assert Fragment(Source, tpfs[0]) == Err(SliceOutOfRange);
    assert tpfs[..0] == [];
    assert Fragments(Source, tpfs[..0]) == Ok([]);
  }
}
