/** The tiling-path (TPF) records and the steps that turn a TPF file and a
    source sequence into oriented fragments: parsing, selecting the records
    of one source scaffold, slicing and orienting, and listing the
    destination scaffolds. */
module TpfFasta {
  import opened Wrappers
  import opened Seqs
  import opened Text
  import Nucleotide

  /** One edit line of a TPF file: the 1-based inclusive range
      `startCoord..endCoord` of `oriScaffold` goes to `newScaffold`. */
  datatype Tpf = Tpf(oriScaffold: string, startCoord: nat, endCoord: nat,
                     newScaffold: string, orientation: string)

  /** A record together with the oriented sequence it selects. */
  datatype NewFasta = NewFasta(tpf: Tpf, sequence: string)

  /** The reasons the pipeline panics. */
  datatype TpfError =
    | MissingToken(index: nat)    // the whitespace-split edit line has no such token
    | MissingRange                // the scaffold token has no `:`
    | MissingEnd                  // the range has no `-`
    | BadCoordinate(text: string) // a coordinate is not a `usize`
    | SequenceMissing             // the sequence store has no entry for the scaffold
    | ZeroPosition                // a coordinate is 0, which is not a 1-based position
    | SliceOutOfRange             // the range does not lie inside the sequence
    | NoComplement(base: char)    // a MINUS fragment holds a character with no complement

  /** `Display for Tpf`: the origin of a fragment, orientation omitted. */
  function Display(t: Tpf): string
  {
    "\t" + t.oriScaffold + " -- " + Decimal(t.startCoord) + " -- " + Decimal(t.endCoord)
  }

  /** Read at its spaces, the printed record gives back its origin: the
      scaffold behind the tab and both coordinates. */
  lemma {:induction false} DisplayFields(t: Tpf)
    requires ' ' !in t.oriScaffold
    ensures Split(Display(t), ' ') ==
            ["\t" + t.oriScaffold, "--", Decimal(t.startCoord), "--", Decimal(t.endCoord)]
  {
    var a := "\t" + t.oriScaffold;
    assert forall i :: 0 <= i < |a| ==> a[i] !in {' '} by {
      forall i | 0 <= i < |a| ensures a[i] != ' ' {
        if i > 0 { assert a[i] == t.oriScaffold[i - 1]; }
      }
    }
    DisplaySplit(a, Decimal(t.startCoord), Decimal(t.endCoord));
  }

  /** The shape of `Display` split at spaces, for any space-free parts. */
  lemma {:induction false} DisplaySplit(a: string, ds: string, de: string)
    requires forall i :: 0 <= i < |a| ==> a[i] !in {' '}
    requires forall i :: 0 <= i < |ds| ==> ds[i] !in {' '}
    requires forall i :: 0 <= i < |de| ==> de[i] !in {' '}
    ensures Split(a + " -- " + ds + " -- " + de, ' ') == [a, "--", ds, "--", de]
  {
    var r3 := "--" + [' '] + de;
    var r2 := ds + [' '] + r3;
    var r1 := "--" + [' '] + r2;
    assert a + " -- " + ds + " -- " + de == a + [' '] + r1;
    SplitOnNoSep(de, {' '});
    SplitOnFirstSep("--", ' ', de, {' '});
    SplitOnFirstSep(ds, ' ', r3, {' '});
    SplitOnFirstSep("--", ' ', r2, {' '});
    SplitOnFirstSep(a, ' ', r1, {' '});
  }


  /** Two records with space-free scaffold names print alike only when
      they share scaffold and coordinates. */
  lemma {:induction false} DisplayInjective(t1: Tpf, t2: Tpf)
    requires ' ' !in t1.oriScaffold && ' ' !in t2.oriScaffold
    requires Display(t1) == Display(t2)
    ensures t1.oriScaffold == t2.oriScaffold
    ensures t1.startCoord == t2.startCoord && t1.endCoord == t2.endCoord
  {
    DisplayFields(t1);
    DisplayFields(t2);
    assert t1.oriScaffold == ("\t" + t1.oriScaffold)[1..];
    assert t2.oriScaffold == ("\t" + t2.oriScaffold)[1..];
    DecimalInjective(t1.startCoord, t2.startCoord);
    DecimalInjective(t1.endCoord, t2.endCoord);
  }

  // ---------------------------------------------------------------------
  // parse_tpf

  /** Only lines that start with `?` are edit lines; gap lines are skipped. */
  predicate IsEditLine(line: string)
  {
    StartsWith(line, "?")
  }

  /** The historical destination prefix `RL` is rewritten to `SUPER`. */
  function RenameScaffold(name: string): string
  {
    ReplaceAll(name, "RL", "SUPER")
  }

  /** One edit line: `? <ori>:<start>-<end> <new> <orientation>`, checked in
      the order the source evaluates it. */
  function ParseLine(line: string): Result<Tpf, TpfError>
  {
    var tokens := SplitWhitespace(ReplaceChar(line, '\t', ' '));
    if |tokens| < 2 then Err(MissingToken(1))
    else
      var scaffData := Split(tokens[1], ':');
      if |scaffData| < 2 then Err(MissingRange)
      else
        var coords := Split(scaffData[1], '-');
        match ParseUsize(coords[0])
        case None => Err(BadCoordinate(coords[0]))
        case Some(start) =>
          if |coords| < 2 then Err(MissingEnd)
          else match ParseUsize(coords[1])
            case None => Err(BadCoordinate(coords[1]))
            case Some(end) =>
              if |tokens| < 3 then Err(MissingToken(2))
              else if |tokens| < 4 then Err(MissingToken(3))
              else Ok(Tpf(scaffData[0], start, end, RenameScaffold(tokens[2]), tokens[3]))
  }

  /** The edit lines, in file order. */
  function EditLines(lines: seq<string>): (r: seq<string>)
    ensures forall k :: 0 <= k < |r| ==> IsEditLine(r[k])
  {
    if |lines| == 0 then []
    else EditLines(lines[..|lines| - 1]) +
         (if IsEditLine(lines[|lines| - 1]) then [lines[|lines| - 1]] else [])
  }

  /** The records of the edit lines in file order; any edit line that fails
      to parse fails the whole file. */
  function ParseLines(lines: seq<string>): Result<seq<Tpf>, TpfError>
  {
    if |lines| == 0 then Ok([])
    else match ParseLines(lines[..|lines| - 1])
      case Err(e) => Err(e)
      case Ok(prev) =>
        var l := lines[|lines| - 1];
        if !IsEditLine(l) then Ok(prev)
        else match ParseLine(l)
          case Err(e) => Err(e)
          case Ok(t) => Ok(prev + [t])
  }

  /** `parse_tpf` on the text of the file. */
  method ParseTpf(text: string) returns (r: Result<seq<Tpf>, TpfError>)
    ensures r == ParseLines(Lines(text))
  {
    var lines := Lines(text);
    var allTpf: seq<Tpf> := [];
    var i := 0;
    while i < |lines|
      invariant 0 <= i <= |lines|
      invariant ParseLines(lines[..i]) == Ok(allTpf)
    {
      assert lines[..i + 1][..i] == lines[..i];
      var line := lines[i];
      if IsEditLine(line) {
        var data := ParseLine(line);
        if data.Err? {
          ParseLinesErrSticky(lines, i + 1);
          return Err(data.error);
        }
        allTpf := allTpf + [data.value];
      }
      i := i + 1;
    }
    assert lines[..i] == lines;
    r := Ok(allTpf);
  }

  /** Once a prefix fails, the whole file fails with the same error. */
  lemma {:induction false} ParseLinesErrSticky(lines: seq<string>, n: nat)
    requires n <= |lines| && ParseLines(lines[..n]).Err?
    ensures ParseLines(lines) == ParseLines(lines[..n])
    decreases |lines| - n
  {
    if n < |lines| {
      assert lines[..n + 1][..n] == lines[..n];
      ParseLinesErrSticky(lines, n + 1);
    } else {
      assert lines[..n] == lines;
    }
  }

  /** Parsing succeeds exactly when every edit line parses, and then yields
      one record per edit line, in file order; other lines contribute
      nothing. */
  lemma {:induction false} ParseLinesSpec(lines: seq<string>)
    ensures ParseLines(lines).Ok? <==>
      forall k :: 0 <= k < |EditLines(lines)| ==> ParseLine(EditLines(lines)[k]).Ok?
    ensures ParseLines(lines).Ok? ==>
      |ParseLines(lines).value| == |EditLines(lines)| &&
      forall k :: 0 <= k < |EditLines(lines)| ==>
        ParseLines(lines).value[k] == ParseLine(EditLines(lines)[k]).value
  {
    if |lines| > 0 {
      var p, l := lines[..|lines| - 1], lines[|lines| - 1];
      ParseLinesSpec(p);
      var e := EditLines(p);
      if IsEditLine(l) {
        ParseLinesEditStep(lines, e, ParseLines(p), ParseLine(l));
      } else {
        assert EditLines(lines) == e;
        assert ParseLines(lines) == ParseLines(p);
      }
    }
  }

  /** The step of `ParseLinesSpec` for an edit line. */
  lemma {:induction false} ParseLinesEditStep(lines: seq<string>, e: seq<string>,
                                               before: Result<seq<Tpf>, TpfError>, last: Result<Tpf, TpfError>)
    requires |lines| > 0 && IsEditLine(lines[|lines| - 1])
    requires e == EditLines(lines[..|lines| - 1])
    requires before == ParseLines(lines[..|lines| - 1]) && last == ParseLine(lines[|lines| - 1])
    requires before.Ok? <==> forall k :: 0 <= k < |e| ==> ParseLine(e[k]).Ok?
    requires before.Ok? ==>
      |before.value| == |e| && forall k :: 0 <= k < |e| ==> before.value[k] == ParseLine(e[k]).value
    ensures ParseLines(lines).Ok? <==>
      forall k :: 0 <= k < |EditLines(lines)| ==> ParseLine(EditLines(lines)[k]).Ok?
    ensures ParseLines(lines).Ok? ==>
      |ParseLines(lines).value| == |EditLines(lines)| &&
      forall k :: 0 <= k < |EditLines(lines)| ==>
        ParseLines(lines).value[k] == ParseLine(EditLines(lines)[k]).value
  {
    var l := lines[|lines| - 1];
    var el := e + [l];
    assert EditLines(lines) == el;
    assert forall k :: 0 <= k < |e| ==> el[k] == e[k];
    assert el[|e|] == l;
    if before.Ok? && last.Ok? {
      assert ParseLines(lines) == Ok(before.value + [last.value]);
    } else if before.Ok? {
      assert ParseLines(lines).Err?;
      assert !ParseLine(el[|e|]).Ok?;
    } else {
      assert ParseLines(lines).Err?;
    }
  }


  /** The scaffold token of a TPF line: `scaffold:start-end`. */
  function ScaffoldToken(t: Tpf): string
  {
    t.oriScaffold + ":" + Decimal(t.startCoord) + "-" + Decimal(t.endCoord)
  }

  /** The line a record is written as in a TPF file. */
  function FormatLine(t: Tpf): string
  {
    "?" + "\t" + ScaffoldToken(t) + "\t" + t.newScaffold + "\t" + t.orientation
  }

  /** A record whose fields fit the TPF line format. */
  predicate Writable(t: Tpf)
  {
    && NoWhitespace(t.oriScaffold) && ':' !in t.oriScaffold
    && t.startCoord <= UsizeMax && t.endCoord <= UsizeMax
    && |t.newScaffold| > 0 && NoWhitespace(t.newScaffold)
    && |t.orientation| > 0 && NoWhitespace(t.orientation)
  }

  /** The scaffold token of a writable record holds no whitespace. */
  lemma {:induction false} ScaffoldTokenNoWhitespace(t: Tpf)
    requires Writable(t)
    ensures NoWhitespace(ScaffoldToken(t))
  {
    var range := Decimal(t.startCoord) + "-" + Decimal(t.endCoord);
    var tok := ScaffoldToken(t);
    assert tok == t.oriScaffold + ":" + range;
    assert forall i :: 0 <= i < |range| ==> range[i] == '-' || IsDigit(range[i]);
    forall i | 0 <= i < |tok| ensures tok[i] !in Whitespace {
      if i >= |t.oriScaffold| + 1 { assert tok[i] == range[i - |t.oriScaffold| - 1]; }
    }
  }

  /** The whitespace-separated tokens of a written record. */
  lemma {:induction false} FormatLineTokens(t: Tpf)
    requires Writable(t)
    ensures SplitWhitespace(ReplaceChar(FormatLine(t), '\t', ' ')) ==
      ["?", ScaffoldToken(t), t.newScaffold, t.orientation]
  {
    ScaffoldTokenNoWhitespace(t);
    assert NoWhitespace("?");
    SplitWhitespaceTabbed("?", ScaffoldToken(t), t.newScaffold, t.orientation);
  }

  /** The scaffold token splits into the name and the two coordinates. */
  lemma {:induction false} FormatLineScaffoldToken(ori: string, start: nat, end: nat)
    requires ':' !in ori
    ensures Split(ori + ":" + Decimal(start) + "-" + Decimal(end), ':') ==
      [ori, Decimal(start) + "-" + Decimal(end)]
    ensures Split(Decimal(start) + "-" + Decimal(end), '-') == [Decimal(start), Decimal(end)]
  {
    ScaffoldSplit(ori, Decimal(start), Decimal(end));
  }

  /** The shape of a scaffold token split at `:` and its range at `-`, for
      any digit strings. */
  lemma {:induction false} ScaffoldSplit(ori: string, ds: string, de: string)
    requires ':' !in ori && AllDigits(ds) && AllDigits(de)
    ensures Split(ori + ":" + ds + "-" + de, ':') == [ori, ds + "-" + de]
    ensures Split(ds + "-" + de, '-') == [ds, de]
  {
    var range := ds + "-" + de;
    assert forall i :: 0 <= i < |range| ==> range[i] == '-' || IsDigit(range[i]);
    assert ori + ":" + ds + "-" + de == ori + [':'] + range;
    SplitOnFirstSep(ori, ':', range, {':'});
    SplitOnNoSep(range, {':'});
    assert range == ds + ['-'] + de;
    SplitOnFirstSep(ds, '-', de, {'-'});
    SplitOnNoSep(de, {'-'});
  }


  /** Parsing a written record gives the record back with its destination
      renamed. */
  lemma {:induction false} ParseFormatLine(t: Tpf)
    requires Writable(t)
    ensures IsEditLine(FormatLine(t))
    ensures ParseLine(FormatLine(t)) == Ok(t.(newScaffold := RenameScaffold(t.newScaffold)))
  {
    FormatLineTokens(t);
    FormatLineScaffoldToken(t.oriScaffold, t.startCoord, t.endCoord);
    DecimalParses(t.startCoord);
    DecimalParses(t.endCoord);
  }

  /** A record whose destination holds no `RL` survives writing and parsing. */
  lemma {:induction false} ParseFormatLineRoundTrip(t: Tpf)
    requires Writable(t) && !Contains(t.newScaffold, "RL")
    ensures ParseLine(FormatLine(t)) == Ok(t)
  {
    ParseFormatLine(t);
    ReplaceAllAbsent(t.newScaffold, "RL", "SUPER");
  }

  /** The prefix rewrite on the fixture's destination names: `RL_3` becomes
      `SUPER_3`, a name without `RL` is kept. */
  lemma {:induction false} RenameScaffoldRewrites()
    ensures RenameScaffold("RL_3") == "SUPER_3"
  {
    var rest := "_3";
    assert "RL_3" == "RL" + rest;
    ReplaceAllLeading("RL", rest, "SUPER");
    assert rest[0] == '_' && rest[1] == '3';
    NotContainsFirstChar(rest, "RL");
    ReplaceAllAbsent(rest, "RL", "SUPER");
  }

  lemma {:induction false} RenameScaffoldKeeps()
    ensures RenameScaffold("SCAFFOLD_84") == "SCAFFOLD_84"
  {
    NotContainsFirstChar("SCAFFOLD_84", "RL");
    ReplaceAllAbsent("SCAFFOLD_84", "RL", "SUPER");
  }

  // ---------------------------------------------------------------------
  // subset_vec_tpf

  /** The records whose source scaffold is `name`, in their original order. */
  function Subset(tpfs: seq<Tpf>, name: string): (r: seq<Tpf>)
    ensures forall k :: 0 <= k < |r| ==> r[k].oriScaffold == name
  {
    if |tpfs| == 0 then []
    else Subset(tpfs[..|tpfs| - 1], name) +
         (if tpfs[|tpfs| - 1].oriScaffold == name then [tpfs[|tpfs| - 1]] else [])
  }

  /** `subset_vec_tpf`; the scaffold length in the pair is not used. */
  method SubsetVecTpf(tpf: seq<Tpf>, fasta: (string, nat)) returns (subsetTpf: seq<Tpf>)
    ensures subsetTpf == Subset(tpf, fasta.0)
  {
    subsetTpf := [];
    var i := 0;
    while i < |tpf|
      invariant 0 <= i <= |tpf|
      invariant subsetTpf == Subset(tpf[..i], fasta.0)
    {
      assert tpf[..i + 1][..i] == tpf[..i];
      if tpf[i].oriScaffold == fasta.0 {
        subsetTpf := subsetTpf + [tpf[i]];
      }
      i := i + 1;
    }
    assert tpf[..i] == tpf;
  }

  /** Selecting distributes over concatenation: the order is kept. */
  lemma {:induction false} SubsetAppend(a: seq<Tpf>, b: seq<Tpf>, name: string)
    ensures Subset(a + b, name) == Subset(a, name) + Subset(b, name)
  {
    if |b| == 0 {
      assert a + b == a;
    } else {
      assert (a + b)[..|a + b| - 1] == a + b[..|b| - 1];
      SubsetAppend(a, b[..|b| - 1], name);
    }
  }

  /** Every record of the scaffold is kept as often as it occurs; no other
      record is kept. */
  lemma {:induction false} SubsetCount(tpfs: seq<Tpf>, name: string, t: Tpf)
    ensures Count(Subset(tpfs, name), t) == if t.oriScaffold == name then Count(tpfs, t) else 0
  {
    if |tpfs| > 0 {
      var p, x := tpfs[..|tpfs| - 1], tpfs[|tpfs| - 1];
      SubsetCount(p, name, t);
      CountAppend(Subset(p, name), if x.oriScaffold == name then [x] else [], t);
      assert (Subset(p, name) + [x])[..|Subset(p, name)|] == Subset(p, name);
    }
  }

  // ---------------------------------------------------------------------
  // check_orientation and parse_seq

  /** `Sequence::slice(start..=end)` on 1-based positions: the characters
      `start..end` inclusive, or nothing when the range does not fit. */
  function SliceInclusive(s: string, start: nat, end: nat): (r: Option<string>)
    requires start >= 1 && end >= 1
    ensures r.Some? <==> start - 1 <= end <= |s|
    ensures r.Some? ==> |r.value| == end - start + 1
  {
    if start - 1 <= end <= |s| then Some(s[start - 1..end]) else None
  }

  /** `check_orientation`: the reverse complement for exactly `MINUS`, the
      sequence itself for every other orientation; a missing slice panics. */
  function CheckOrientation(parsed: Option<string>, orientation: string): (r: Result<string, TpfError>)
    ensures parsed.None? ==> r == Err(SliceOutOfRange)
    ensures parsed.Some? && orientation != "MINUS" ==> r == Ok(parsed.value)
    ensures parsed.Some? && orientation == "MINUS" ==>
      (r.Ok? <==> Nucleotide.Complementable(parsed.value))
    ensures parsed.Some? && orientation == "MINUS" && r.Ok? ==>
      Nucleotide.ReverseComplement(parsed.value) == Ok(r.value)
  {
    match parsed
    case None => Err(SliceOutOfRange)
    case Some(s) =>
      if orientation == "MINUS" then
        match Nucleotide.ReverseComplement(s)
        case Err(c) => Err(NoComplement(c))
        case Ok(rc) => Ok(rc)
      else Ok(s)
  }

  /** The oriented sequence one record selects from its source scaffold. */
  function Fragment(s: string, t: Tpf): (r: Result<string, TpfError>)
    ensures r.Ok? <==>
      1 <= t.startCoord && 1 <= t.endCoord && t.startCoord - 1 <= t.endCoord <= |s| &&
      (t.orientation == "MINUS" ==> Nucleotide.Complementable(s[t.startCoord - 1..t.endCoord]))
    ensures r.Ok? ==> |r.value| == t.endCoord - t.startCoord + 1
    ensures r.Ok? && t.orientation != "MINUS" ==> r.value == s[t.startCoord - 1..t.endCoord]
    ensures r.Ok? && t.orientation == "MINUS" ==>
      Nucleotide.ReverseComplement(s[t.startCoord - 1..t.endCoord]) == Ok(r.value)
  {
    if t.startCoord == 0 || t.endCoord == 0 then Err(ZeroPosition)
    else CheckOrientation(SliceInclusive(s, t.startCoord, t.endCoord), t.orientation)
  }

  /** The fragments of `tpfs` in order; the first failing record fails all. */
  function Fragments(s: string, tpfs: seq<Tpf>): Result<seq<NewFasta>, TpfError>
  {
    if |tpfs| == 0 then Ok([])
    else match Fragments(s, tpfs[..|tpfs| - 1])
      case Err(e) => Err(e)
      case Ok(prev) =>
        var t := tpfs[|tpfs| - 1];
        match Fragment(s, t)
        case Err(e) => Err(e)
        case Ok(f) => Ok(prev + [NewFasta(t, f)])
  }

  /** What `parse_seq` returns: a missing sequence panics before any record
      is looked at. */
  function ParseSeqSpec(sequence: Option<string>, tpfs: seq<Tpf>): Result<seq<NewFasta>, TpfError>
  {
    match sequence
    case None => Err(SequenceMissing)
    case Some(s) => Fragments(s, tpfs)
  }

  /** `parse_seq`. */
  method ParseSeq(sequence: Option<string>, tpf: seq<Tpf>) returns (r: Result<seq<NewFasta>, TpfError>)
    ensures r == ParseSeqSpec(sequence, tpf)
  {
    if sequence.None? {
      return Err(SequenceMissing);
    }
    var newSeq := sequence.value;
    var subsetTpf: seq<NewFasta> := [];
    var i := 0;
    while i < |tpf|
      invariant 0 <= i <= |tpf|
      invariant Fragments(newSeq, tpf[..i]) == Ok(subsetTpf)
    {
      assert tpf[..i + 1][..i] == tpf[..i];
      var t := tpf[i];
      if t.startCoord == 0 || t.endCoord == 0 {
        FragmentsErrSticky(newSeq, tpf, i + 1);
        return Err(ZeroPosition);
      }
      var parsed := SliceInclusive(newSeq, t.startCoord, t.endCoord);
      var theSequence := CheckOrientation(parsed, t.orientation);
      if theSequence.Err? {
        FragmentsErrSticky(newSeq, tpf, i + 1);
        return Err(theSequence.error);
      }
      subsetTpf := subsetTpf + [NewFasta(t, theSequence.value)];
      i := i + 1;
    }
    assert tpf[..i] == tpf;
    r := Ok(subsetTpf);
  }

  lemma {:induction false} FragmentsErrSticky(s: string, tpfs: seq<Tpf>, n: nat)
    requires n <= |tpfs| && Fragments(s, tpfs[..n]).Err?
    ensures Fragments(s, tpfs) == Fragments(s, tpfs[..n])
    decreases |tpfs| - n
  {
    if n < |tpfs| {
      assert tpfs[..n + 1][..n] == tpfs[..n];
      FragmentsErrSticky(s, tpfs, n + 1);
    } else {
      assert tpfs[..n] == tpfs;
    }
  }

  /** `parse_seq` succeeds exactly when every record's fragment does, and
      then gives one entry per record, in order, pairing the record with its
      fragment. */
  lemma {:induction false} FragmentsSpec(s: string, tpfs: seq<Tpf>)
    ensures Fragments(s, tpfs).Ok? <==> forall k :: 0 <= k < |tpfs| ==> Fragment(s, tpfs[k]).Ok?
    ensures Fragments(s, tpfs).Ok? ==>
      |Fragments(s, tpfs).value| == |tpfs| &&
      forall k :: 0 <= k < |tpfs| ==>
        Fragments(s, tpfs).value[k] == NewFasta(tpfs[k], Fragment(s, tpfs[k]).value)
  {
    if |tpfs| > 0 {
      FragmentsSpec(s, tpfs[..|tpfs| - 1]);
    }
  }

  // ---------------------------------------------------------------------
  // get_uniques

  function NewNames(tpfs: seq<Tpf>): (r: seq<string>)
    ensures |r| == |tpfs| && forall k :: 0 <= k < |tpfs| ==> r[k] == tpfs[k].newScaffold
  {
    seq(|tpfs|, k requires 0 <= k < |tpfs| => tpfs[k].newScaffold)
  }

  /** `get_uniques`. */
  method GetUniques(tpfList: seq<Tpf>) returns (uniques: seq<string>)
    ensures uniques == Dedup(NewNames(tpfList))
  {
    uniques := [];
    var i := 0;
    while i < |tpfList|
      invariant 0 <= i <= |tpfList|
      invariant uniques == Dedup(NewNames(tpfList[..i]))
    {
      ghost var names := NewNames(tpfList[..i + 1]);
      assert names[..i] == NewNames(tpfList[..i]);
      if tpfList[i].newScaffold !in uniques {
        uniques := uniques + [tpfList[i].newScaffold];
      }
      i := i + 1;
    }
    assert tpfList[..i] == tpfList;
  }

  /** The destination names: no duplicates, exactly the records' new
      scaffolds, in order of first occurrence. */
  lemma {:induction false} UniquesSpec(tpfs: seq<Tpf>)
    ensures NoDup(Dedup(NewNames(tpfs)))
    ensures forall k :: 0 <= k < |tpfs| ==> tpfs[k].newScaffold in Dedup(NewNames(tpfs))
    ensures forall x :: x in Dedup(NewNames(tpfs)) ==> exists k :: 0 <= k < |tpfs| && tpfs[k].newScaffold == x
    ensures forall x :: x in Dedup(NewNames(tpfs)) <==> x in NewNames(tpfs)
    ensures forall i, j :: 0 <= i < j < |Dedup(NewNames(tpfs))| ==>
      FirstIndex(NewNames(tpfs), Dedup(NewNames(tpfs))[i]) < FirstIndex(NewNames(tpfs), Dedup(NewNames(tpfs))[j])
  {
    var names := NewNames(tpfs);
    DedupSpec(names);
    forall x | x in Dedup(names) ensures exists k :: 0 <= k < |tpfs| && tpfs[k].newScaffold == x {
      var k := FirstIndex(names, x);
      assert tpfs[k].newScaffold == x;
    }
  }
}
