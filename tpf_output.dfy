/** Rendering the re-assembled scaffolds (`save_to_fasta`) and the
    pipeline that feeds it (`curate_fasta`): for each destination scaffold,
    in order of first appearance in the TPF, a FASTA record whose sequence
    is the destination's fragments joined by runs of `N` and wrapped at 60
    characters, and a provenance report listing where each fragment came
    from. */
module TpfOutput {
  import opened Wrappers
  import opened Seqs
  import opened Text
  import opened TpfFasta

  /** Characters per FASTA sequence line. */
  const LineLen: nat := 60

  /** The sequences of the entries built for record `t`, in entry order. */
  function MatchSeqs(fd: seq<NewFasta>, t: Tpf): seq<string>
  {
    if |fd| == 0 then []
    else MatchSeqs(fd[..|fd| - 1], t) +
         (if fd[|fd| - 1].tpf == t then [fd[|fd| - 1].sequence] else [])
  }

  /** The fragments of destination `x`: the records of `x` in TPF order,
      each contributing the sequences of the entries equal to it. */
  function Collected(fd: seq<NewFasta>, tpfs: seq<Tpf>, x: string): seq<string>
  {
    if |tpfs| == 0 then []
    else Collected(fd, tpfs[..|tpfs| - 1], x) +
         (if tpfs[|tpfs| - 1].newScaffold == x then MatchSeqs(fd, tpfs[|tpfs| - 1]) else [])
  }

  /** One provenance line: `Display` behind one more tab. */
  function ReportLine(t: Tpf): string
  {
    "\t" + Display(t) + "\n"
  }

  /** `k` copies of `s`. */
  function Copies(s: string, k: nat): string
  {
    if k == 0 then [] else Copies(s, k - 1) + s
  }

  /** The provenance lines under destination `x`: one per matched entry. */
  function ReportBody(fd: seq<NewFasta>, tpfs: seq<Tpf>, x: string): string
  {
    if |tpfs| == 0 then []
    else
      var t := tpfs[|tpfs| - 1];
      ReportBody(fd, tpfs[..|tpfs| - 1], x) +
      (if t.newScaffold == x then Copies(ReportLine(t), |MatchSeqs(fd, t)|) else [])
  }

  /** `s.as_bytes().chunks(width)`: pieces of `width` characters, the last
      one shorter, none for the empty string. */
  function Wrap(s: string, width: nat): seq<string>
    requires width > 0
    decreases |s|
  {
    if |s| == 0 then []
    else if |s| <= width then [s]
    else [s[..width]] + Wrap(s[width..], width)
  }

  function Header(x: string): string
  {
    ">" + x + "\n"
  }

  /** The fragments of `x` joined by `n` `N`s. */
  function Joined(fd: seq<NewFasta>, tpfs: seq<Tpf>, n: nat, x: string): string
  {
    Join(Collected(fd, tpfs, x), Repeat('N', n))
  }

  /** The FASTA records of the destinations in `names`, in that order. */
  function FastaOver(fd: seq<NewFasta>, tpfs: seq<Tpf>, n: nat, names: seq<string>): string
  {
    if |names| == 0 then []
    else
      var x := names[|names| - 1];
      FastaOver(fd, tpfs, n, names[..|names| - 1]) + Header(x) + Unlines(Wrap(Joined(fd, tpfs, n, x), LineLen))
  }

  /** The report sections of the destinations in `names`, in that order. */
  function ReportOver(fd: seq<NewFasta>, tpfs: seq<Tpf>, names: seq<string>): string
  {
    if |names| == 0 then []
    else
      var x := names[|names| - 1];
      ReportOver(fd, tpfs, names[..|names| - 1]) + Header(x) + ReportBody(fd, tpfs, x)
  }

  /** The output FASTA file: one record per destination, in `get_uniques` order. */
  function FastaText(fd: seq<NewFasta>, tpfs: seq<Tpf>, n: nat): string
  {
    FastaOver(fd, tpfs, n, Dedup(NewNames(tpfs)))
  }

  /** The provenance report, in the same destination order. */
  function ReportText(fd: seq<NewFasta>, tpfs: seq<Tpf>): string
  {
    ReportOver(fd, tpfs, Dedup(NewNames(tpfs)))
  }

  /** The innermost loop of `save_to_fasta`: the entries built for record
      `t`, with one provenance line each. */
  method MatchFor(fastaData: seq<NewFasta>, t: Tpf) returns (seqs: seq<string>, lines: string)
    ensures seqs == MatchSeqs(fastaData, t)
    ensures lines == Copies(ReportLine(t), |seqs|)
  {
    seqs, lines := [], [];
    for j := 0 to |fastaData|
      invariant seqs == MatchSeqs(fastaData[..j], t)
      invariant lines == Copies(ReportLine(t), |seqs|)
    {
      assert fastaData[..j + 1][..j] == fastaData[..j];
      if fastaData[j].tpf == t {
        lines := lines + ReportLine(t);
        seqs := seqs + [fastaData[j].sequence];
      }
    }
    assert fastaData[..|fastaData|] == fastaData;
  }

  /** The inner loops of `save_to_fasta` for destination `x`: the fragments
      pushed into the record and the provenance lines written. */
  method CollectFor(fastaData: seq<NewFasta>, tpfData: seq<Tpf>, x: string)
    returns (data: seq<string>, lines: string)
    ensures data == Collected(fastaData, tpfData, x)
    ensures lines == ReportBody(fastaData, tpfData, x)
  {
    data, lines := [], [];
    for k := 0 to |tpfData|
      invariant data == Collected(fastaData, tpfData[..k], x)
      invariant lines == ReportBody(fastaData, tpfData[..k], x)
    {
      assert tpfData[..k + 1][..k] == tpfData[..k];
      var tpf := tpfData[k];
      if tpf.newScaffold == x {
        var seqs, more := MatchFor(fastaData, tpf);
        data := data + seqs;
        lines := lines + more;
      }
    }
    assert tpfData[..|tpfData|] == tpfData;
  }

  /** The chunk loop of `save_to_fasta`: each line written with its newline. */
  method WriteLines(text: string, lines: seq<string>) returns (r: string)
    ensures r == text + Unlines(lines)
  {
    r := text;
    for c := 0 to |lines|
      invariant r == text + Unlines(lines[..c])
    {
      UnlinesSnoc(lines[..c], lines[c]);
      assert lines[..c + 1] == lines[..c] + [lines[c]];
      r := r + lines[c] + "\n";
    }
    assert lines[..|lines|] == lines;
  }

  /** One turn of the outer loop of `save_to_fasta`: the record of
      destination `x` appended to the FASTA text and its section to the
      report. */
  method WriteScaffold(fastaData: seq<NewFasta>, tpfData: seq<Tpf>, nLength: nat, x: string,
                       fasta: string, report: string)
    returns (fasta': string, report': string)
    ensures fasta' == fasta + Header(x) + Unlines(Wrap(Joined(fastaData, tpfData, nLength, x), LineLen))
    ensures report' == report + Header(x) + ReportBody(fastaData, tpfData, x)
  {
    var stringy := Header(x);
    fasta' := fasta + stringy;
    report' := report + stringy;
    var data, lines := CollectFor(fastaData, tpfData, x);
    report' := report' + lines;
    var fixed2 := Join(data, Repeat('N', nLength));
    var fixed3 := Wrap(fixed2, LineLen);
    fasta' := WriteLines(fasta', fixed3);
  }

  /** `save_to_fasta`, returning the two files' contents. */
  method SaveToFasta(fastaData: seq<NewFasta>, tpfData: seq<Tpf>, nLength: nat)
    returns (fasta: string, report: string)
    ensures fasta == FastaText(fastaData, tpfData, nLength)
    ensures report == ReportText(fastaData, tpfData)
  {
    var uniques := GetUniques(tpfData);
    fasta, report := [], [];
    for i := 0 to |uniques|
      invariant fasta == FastaOver(fastaData, tpfData, nLength, uniques[..i])
      invariant report == ReportOver(fastaData, tpfData, uniques[..i])
    {
      assert uniques[..i + 1][..i] == uniques[..i];
      assert uniques[..i + 1][i] == uniques[i];
      fasta, report := WriteScaffold(fastaData, tpfData, nLength, uniques[i], fasta, report);
    }
    assert uniques[..|uniques|] == uniques;
  }

  // ---------------------------------------------------------------------
  // Properties of the rendering

  /** The wrapped lines put back together give the sequence; every line but
      the last has exactly `width` characters, the last between 1 and
      `width`; the empty sequence gives no line at all. */
  lemma {:induction false} WrapSpec(s: string, width: nat)
    requires width > 0
    ensures Flatten(Wrap(s, width)) == s
    ensures |Wrap(s, width)| == 0 <==> |s| == 0
    ensures forall i :: 0 <= i < |Wrap(s, width)| - 1 ==> |Wrap(s, width)[i]| == width
    ensures |Wrap(s, width)| > 0 ==> 0 < |Wrap(s, width)[|Wrap(s, width)| - 1]| <= width
    decreases |s|
  {
    if |s| > width {
      WrapSpec(s[width..], width);
      var w := Wrap(s, width);
      assert w == [s[..width]] + Wrap(s[width..], width);
      assert w[1..] == Wrap(s[width..], width);
      assert s == s[..width] + s[width..];
    } else if |s| > 0 {
      assert Flatten([s]) == s + Flatten([s][1..]);
    }
  }

  /** A wrapped line holds only characters of the sequence. */
  lemma {:induction false} WrapChars(s: string, width: nat, i: nat, c: char)
    requires width > 0 && i < |Wrap(s, width)| && c in Wrap(s, width)[i]
    ensures c in s
    decreases |s|
  {
    if |s| > width {
      if i > 0 {
        WrapChars(s[width..], width, i - 1, c);
      }
    }
  }

  /** One more TPF record whose only fragment is `p` extends the sequence of
      its destination: the first fragment stands alone, a later one follows
      a run of `n` `N`s; the gap filler never trails. Every other
      destination keeps its sequence. */
  lemma {:induction false} JoinedSnoc(fd: seq<NewFasta>, tpfs: seq<Tpf>, t: Tpf, n: nat, p: string, y: string)
    requires MatchSeqs(fd, t) == [p]
    ensures |Collected(fd, tpfs, t.newScaffold)| == 0 ==>
      Joined(fd, tpfs + [t], n, t.newScaffold) == p
    ensures |Collected(fd, tpfs, t.newScaffold)| > 0 ==>
      Joined(fd, tpfs + [t], n, t.newScaffold) == Joined(fd, tpfs, n, t.newScaffold) + Repeat('N', n) + p
    ensures y != t.newScaffold ==> Joined(fd, tpfs + [t], n, y) == Joined(fd, tpfs, n, y)
  {
    var ts := tpfs + [t];
    assert ts[..|ts| - 1] == tpfs && ts[|ts| - 1] == t;
    var before := Collected(fd, tpfs, t.newScaffold);
    assert Collected(fd, ts, t.newScaffold) == before + [p];
    if |before| == 0 {
      assert before + [p] == [p];
    } else {
      JoinSnoc(before, p, Repeat('N', n));
    }
    if y != t.newScaffold {
      assert Collected(fd, ts, y) == Collected(fd, tpfs, y) + [];
      assert Collected(fd, tpfs, y) + [] == Collected(fd, tpfs, y);
    }
  }

  /** Reading a written record back line by line gives the header line and
      the wrapped sequence lines. */
  lemma {:induction false} RecordReadsBack(x: string, joined: string)
    requires '\n' !in x && !(|x| > 0 && x[|x| - 1] == '\r')
    requires '\n' !in joined && '\r' !in joined
    ensures Lines(Header(x) + Unlines(Wrap(joined, LineLen))) == [">" + x] + Wrap(joined, LineLen)
  {
    var w := Wrap(joined, LineLen);
    var ls := [">" + x] + w;
    assert Header(x) + Unlines(w) == Unlines(ls) by {
      assert ls[1..] == w;
    }
    forall i | 0 <= i < |ls|
      ensures '\n' !in ls[i] && !(|ls[i]| > 0 && ls[i][|ls[i]| - 1] == '\r')
    {
      if i > 0 {
        assert ls[i] == w[i - 1];
        if '\n' in w[i - 1] { WrapChars(joined, LineLen, i - 1, '\n'); }
        if |w[i - 1]| > 0 && w[i - 1][|w[i - 1]| - 1] == '\r' {
          WrapChars(joined, LineLen, i - 1, '\r');
        }
      } else {
        assert ls[0] == [">"[0]] + x;
        if |x| > 0 { assert ls[0][|ls[0]| - 1] == x[|x| - 1]; }
      }
    }
    LinesUnlines(ls);
  }

  // ---------------------------------------------------------------------
  // curate_fasta

  /** The sequence store: a scaffold's full sequence, if it has one. */
  function Lookup(store: map<string, string>, name: string): Option<string>
  {
    if name in store then Some(store[name]) else None
  }

  function IndexNames(index: seq<(string, nat)>): (r: seq<string>)
    ensures |r| == |index| && forall k :: 0 <= k < |index| ==> r[k] == index[k].0
  {
    seq(|index|, k requires 0 <= k < |index| => index[k].0)
  }

  /** The loop of `curate_fasta` that builds `new_fasta_data`: for each
      scaffold of the input FASTA, in the index's iteration order, the
      entries of the records that cut it. */
  function CuratedData(index: seq<(string, nat)>, store: map<string, string>, tpfs: seq<Tpf>)
    : Result<seq<NewFasta>, TpfError>
  {
    if |index| == 0 then Ok([])
    else match CuratedData(index[..|index| - 1], store, tpfs)
      case Err(e) => Err(e)
      case Ok(prev) =>
        var name := index[|index| - 1].0;
        match ParseSeqSpec(Lookup(store, name), Subset(tpfs, name))
        case Err(e) => Err(e)
        case Ok(more) => Ok(prev + more)
  }

  /** The whole run: parse the TPF text, cut every scaffold of the index,
      render the FASTA and the report. */
  function Curate(index: seq<(string, nat)>, store: map<string, string>, tpfText: string, nLength: nat)
    : Result<(string, string), TpfError>
  {
    match ParseLines(Lines(tpfText))
    case Err(e) => Err(e)
    case Ok(tpfs) =>
      match CuratedData(index, store, tpfs)
      case Err(e) => Err(e)
      case Ok(fd) => Ok((FastaText(fd, tpfs, nLength), ReportText(fd, tpfs)))
  }

  /** `curate_fasta` after the FASTA has been validated and indexed: `index`
      is the validated name-to-length map in its iteration order and
      `store` the indexed reader. */
  method CurateFasta(index: seq<(string, nat)>, store: map<string, string>, tpfText: string, nLength: nat)
    returns (r: Result<(string, string), TpfError>)
    ensures r == Curate(index, store, tpfText, nLength)
  {
    var parsed := ParseTpf(tpfText);
    if parsed.Err? {
      return Err(parsed.error);
    }
    var tpfData := parsed.value;
    var newFastaData: seq<NewFasta> := [];
    for i := 0 to |index|
      invariant CuratedData(index[..i], store, tpfData) == Ok(newFastaData)
    {
      assert index[..i + 1][..i] == index[..i];
      var subsetTpf := SubsetVecTpf(tpfData, index[i]);
      var sequence := Lookup(store, index[i].0);
      var subsetResults := ParseSeq(sequence, subsetTpf);
      if subsetResults.Err? {
        CuratedDataErrSticky(index, store, tpfData, i + 1);
        return Err(subsetResults.error);
      }
      newFastaData := newFastaData + subsetResults.value;
    }
    assert index[..|index|] == index;
    var fasta, report := SaveToFasta(newFastaData, tpfData, nLength);
    r := Ok((fasta, report));
  }

  lemma {:induction false} CuratedDataErrSticky(index: seq<(string, nat)>, store: map<string, string>, tpfs: seq<Tpf>, n: nat)
    requires n <= |index| && CuratedData(index[..n], store, tpfs).Err?
    ensures CuratedData(index, store, tpfs) == CuratedData(index[..n], store, tpfs)
    decreases |index| - n
  {
    if n < |index| {
      assert index[..n + 1][..n] == index[..n];
      CuratedDataErrSticky(index, store, tpfs, n + 1);
    } else {
      assert index[..n] == index;
    }
  }

  // ---------------------------------------------------------------------
  // What ends up under each destination

  lemma {:induction false} MatchSeqsAppend(a: seq<NewFasta>, b: seq<NewFasta>, t: Tpf)
    ensures MatchSeqs(a + b, t) == MatchSeqs(a, t) + MatchSeqs(b, t)
  {
    if |b| == 0 {
      assert a + b == a;
    } else {
      assert (a + b)[..|a + b| - 1] == a + b[..|b| - 1];
      MatchSeqsAppend(a, b[..|b| - 1], t);
    }
  }

  /** The fragment record `t` cuts from sequence `s` (empty if it cannot). */
  function FragmentOf(s: string, t: Tpf): string
  {
    if Fragment(s, t).Ok? then Fragment(s, t).value else []
  }

  /** The fragment record `t` cuts from its source scaffold in the store. */
  function SourceFragment(store: map<string, string>, t: Tpf): string
  {
    if t.oriScaffold in store then FragmentOf(store[t.oriScaffold], t) else []
  }

  /** Cutting a scaffold yields, for each record, one entry per occurrence
      of the record. */
  lemma {:induction false} MatchSeqsFragments(s: string, sub: seq<Tpf>, t: Tpf)
    requires Fragments(s, sub).Ok?
    ensures MatchSeqs(Fragments(s, sub).value, t) == Repeat(FragmentOf(s, t), Count(sub, t))
  {
    if |sub| > 0 {
      var p, last := sub[..|sub| - 1], sub[|sub| - 1];
      MatchSeqsFragments(s, p, t);
      var prev := Fragments(s, p).value;
      var entry := NewFasta(last, Fragment(s, last).value);
      assert Fragments(s, sub).value == prev + [entry];
      MatchSeqsAppend(prev, [entry], t);
      assert [entry][..0] == [];
      if last == t {
        var f := FragmentOf(s, t);
        assert Repeat(f, Count(p, t) + 1) == Repeat(f, Count(p, t)) + [f];
      }
    }
  }

  /** The main property of `curate_fasta`'s loop: when the index names
      each scaffold once, the entries built for record `t` are as many
      copies of its fragment as `t` occurs in the TPF if its source
      scaffold is in the FASTA, and none at all otherwise. */
  lemma {:induction false} CuratedMatches(index: seq<(string, nat)>, store: map<string, string>, tpfs: seq<Tpf>, t: Tpf)
    requires NoDup(IndexNames(index))
    requires CuratedData(index, store, tpfs).Ok?
    ensures MatchSeqs(CuratedData(index, store, tpfs).value, t) ==
            Repeat(SourceFragment(store, t), if t.oriScaffold in IndexNames(index) then Count(tpfs, t) else 0)
  {
    if |index| > 0 {
      var p, name := index[..|index| - 1], index[|index| - 1].0;
      var names := IndexNames(index);
      assert IndexNames(p) == names[..|index| - 1];
      assert names == IndexNames(p) + [name];
      assert NoDup(IndexNames(p));
      CuratedMatches(p, store, tpfs, t);
      var prev := CuratedData(p, store, tpfs).value;
      assert name in store;
      var more := Fragments(store[name], Subset(tpfs, name)).value;
      assert CuratedData(index, store, tpfs).value == prev + more;
      MatchSeqsAppend(prev, more, t);
      MatchSeqsFragments(store[name], Subset(tpfs, name), t);
      SubsetCount(tpfs, name, t);
      if t.oriScaffold == name {
        assert name !in IndexNames(p) by {
          forall k | 0 <= k < |p| ensures IndexNames(p)[k] != name {
            assert names[k] != names[|index| - 1];
          }
        }
      }
    }
  }

  /** A record whose source scaffold is not in the FASTA is dropped: no
      entry is built for it. */
  lemma {:induction false} MissingSourceDropped(index: seq<(string, nat)>, store: map<string, string>, tpfs: seq<Tpf>, t: Tpf)
    requires NoDup(IndexNames(index))
    requires CuratedData(index, store, tpfs).Ok?
    requires t.oriScaffold !in IndexNames(index)
    ensures MatchSeqs(CuratedData(index, store, tpfs).value, t) == []
  {
    CuratedMatches(index, store, tpfs, t);
  }

  /** The fragments of `x` expected when every record is cut once. */
  function Expected(store: map<string, string>, tpfs: seq<Tpf>, x: string): seq<string>
  {
    if |tpfs| == 0 then []
    else Expected(store, tpfs[..|tpfs| - 1], x) +
         (if tpfs[|tpfs| - 1].newScaffold == x then [SourceFragment(store, tpfs[|tpfs| - 1])] else [])
  }

  lemma {:induction false} CollectedOnce(fd: seq<NewFasta>, store: map<string, string>, tpfs: seq<Tpf>, x: string)
    requires forall k :: 0 <= k < |tpfs| ==> MatchSeqs(fd, tpfs[k]) == [SourceFragment(store, tpfs[k])]
    ensures Collected(fd, tpfs, x) == Expected(store, tpfs, x)
  {
    if |tpfs| > 0 {
      CollectedOnce(fd, store, tpfs[..|tpfs| - 1], x);
      assert MatchSeqs(fd, tpfs[|tpfs| - 1]) == [SourceFragment(store, tpfs[|tpfs| - 1])];
    }
  }

  /** With distinct records whose sources are all in the FASTA, destination
      `x` receives exactly one fragment per record of `x`, in TPF order. */
  lemma {:induction false} ScaffoldFragments(index: seq<(string, nat)>, store: map<string, string>, tpfs: seq<Tpf>, x: string)
    requires NoDup(IndexNames(index)) && NoDup(tpfs)
    requires forall k :: 0 <= k < |tpfs| ==> tpfs[k].oriScaffold in IndexNames(index)
    requires CuratedData(index, store, tpfs).Ok?
    ensures Collected(CuratedData(index, store, tpfs).value, tpfs, x) == Expected(store, tpfs, x)
  {
    var fd := CuratedData(index, store, tpfs).value;
    forall k | 0 <= k < |tpfs|
      ensures MatchSeqs(fd, tpfs[k]) == [SourceFragment(store, tpfs[k])]
    {
      CuratedMatches(index, store, tpfs, tpfs[k]);
      CountNoDup(tpfs, tpfs[k]);
    }
    CollectedOnce(fd, store, tpfs, x);
  }

  // ---------------------------------------------------------------------
  // The order of the FASTA index does not matter

  /** Whether the records cutting scaffold `name` can all be cut. */
  predicate Cuttable(store: map<string, string>, tpfs: seq<Tpf>, name: string)
  {
    ParseSeqSpec(Lookup(store, name), Subset(tpfs, name)).Ok?
  }

  /** The loop succeeds exactly when every indexed scaffold can be cut. */
  lemma {:induction false} CuratedDataOk(index: seq<(string, nat)>, store: map<string, string>, tpfs: seq<Tpf>)
    ensures CuratedData(index, store, tpfs).Ok? <==>
            forall k :: 0 <= k < |index| ==> Cuttable(store, tpfs, index[k].0)
  {
    if |index| > 0 {
      var p := index[..|index| - 1];
      CuratedDataOk(p, store, tpfs);
      assert forall k :: 0 <= k < |p| ==> p[k] == index[k];
    }
  }

  lemma {:induction false} OutputCongruent(fd1: seq<NewFasta>, fd2: seq<NewFasta>, tpfs: seq<Tpf>, n: nat, names: seq<string>)
    requires forall t :: MatchSeqs(fd1, t) == MatchSeqs(fd2, t)
    ensures FastaOver(fd1, tpfs, n, names) == FastaOver(fd2, tpfs, n, names)
    ensures ReportOver(fd1, tpfs, names) == ReportOver(fd2, tpfs, names)
  {
    if |names| > 0 {
      OutputCongruent(fd1, fd2, tpfs, n, names[..|names| - 1]);
      BodyCongruent(fd1, fd2, tpfs, names[|names| - 1]);
    }
  }

  lemma {:induction false} BodyCongruent(fd1: seq<NewFasta>, fd2: seq<NewFasta>, tpfs: seq<Tpf>, x: string)
    requires forall t :: MatchSeqs(fd1, t) == MatchSeqs(fd2, t)
    ensures Collected(fd1, tpfs, x) == Collected(fd2, tpfs, x)
    ensures ReportBody(fd1, tpfs, x) == ReportBody(fd2, tpfs, x)
  {
    if |tpfs| > 0 {
      BodyCongruent(fd1, fd2, tpfs[..|tpfs| - 1], x);
    }
  }

  /** Two runs over the same scaffolds, indexed in different orders,
      succeed or fail together and, when they succeed, write the same
      files: the output order comes from the TPF, not from the FASTA. */
  lemma {:induction false} CurateOrderIndependent(index1: seq<(string, nat)>, index2: seq<(string, nat)>,
                               store: map<string, string>, tpfText: string, nLength: nat)
    requires NoDup(IndexNames(index1)) && NoDup(IndexNames(index2))
    requires forall name :: name in IndexNames(index1) <==> name in IndexNames(index2)
    ensures Curate(index1, store, tpfText, nLength).Ok? <==> Curate(index2, store, tpfText, nLength).Ok?
    ensures Curate(index1, store, tpfText, nLength).Ok? ==>
            Curate(index1, store, tpfText, nLength) == Curate(index2, store, tpfText, nLength)
  {
    if ParseLines(Lines(tpfText)).Ok? {
      var tpfs := ParseLines(Lines(tpfText)).value;
      CuratedDataOk(index1, store, tpfs);
      CuratedDataOk(index2, store, tpfs);
      var n1, n2 := IndexNames(index1), IndexNames(index2);
      if CuratedData(index1, store, tpfs).Ok? {
        forall k | 0 <= k < |index2| ensures Cuttable(store, tpfs, index2[k].0) {
          assert n2[k] in n2;
          var j :| 0 <= j < |n1| && n1[j] == n2[k];
          assert Cuttable(store, tpfs, index1[j].0);
        }
      }
      if CuratedData(index2, store, tpfs).Ok? {
        forall k | 0 <= k < |index1| ensures Cuttable(store, tpfs, index1[k].0) {
          assert n1[k] in n1;
          var j :| 0 <= j < |n2| && n2[j] == n1[k];
          assert Cuttable(store, tpfs, index2[j].0);
        }
        var fd1 := CuratedData(index1, store, tpfs).value;
        var fd2 := CuratedData(index2, store, tpfs).value;
        forall t ensures MatchSeqs(fd1, t) == MatchSeqs(fd2, t) {
          CuratedMatches(index1, store, tpfs, t);
          CuratedMatches(index2, store, tpfs, t);
        }
        OutputCongruent(fd1, fd2, tpfs, nLength, Dedup(NewNames(tpfs)));
      }
    }
  }
}
