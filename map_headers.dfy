/** Header renumbering (`map_headers`): every record name is paired with
    `{new_name}_{i}`, the pairs are saved as a two-column table, and the
    FASTA is rewritten line by line with each header replaced by its new
    name. */
module MapHeaders {
  import opened Wrappers
  import opened Seqs
  import opened Text

  /** An (old name, new name) pair. */
  type Pair = (string, string)

  datatype MapError = NoMapping(header: string)   // `map.expect("")` on a header nobody maps

  /** The `i`-th new name. */
  function NewHead(newName: string, i: nat): string
  {
    newName + "_" + Decimal(i)
  }

  /** `mapped` pairs each name, in order, with its numbered new name. */
  predicate IsMapping(mapped: seq<Pair>, names: seq<string>, newName: string)
  {
    |mapped| == |names| &&
    forall i :: 0 <= i < |mapped| ==> mapped[i] == (names[i], NewHead(newName, i))
  }

  /** `create_mapping`. */
  method CreateMapping(nameVec: seq<string>, newName: string) returns (mapped: seq<Pair>)
    ensures IsMapping(mapped, nameVec, newName)
  {
    var newHeads: seq<string> := [];
    var headCounter: nat := 0;
    for k := 0 to |nameVec|
      invariant headCounter == k && |newHeads| == k
      invariant forall i :: 0 <= i < k ==> newHeads[i] == NewHead(newName, i)
    {
      newHeads := newHeads + [newName + "_" + Decimal(headCounter)];
      headCounter := headCounter + 1;
    }
    mapped := seq(|nameVec|, i requires 0 <= i < |nameVec| => (nameVec[i], newHeads[i]));
  }

  /** The new names are pairwise distinct, whether or not the old ones are. */
  lemma {:induction false} NewHeadsDistinct(mapped: seq<Pair>, names: seq<string>, newName: string, i: nat, j: nat)
    requires IsMapping(mapped, names, newName)
    requires i < j < |mapped|
    ensures mapped[i].1 != mapped[j].1
  {
    if mapped[i].1 == mapped[j].1 {
      var p := newName + "_";
      assert p + Decimal(i) == p + Decimal(j);
      assert Decimal(i) == (p + Decimal(i))[|p|..];
      assert Decimal(j) == (p + Decimal(j))[|p|..];
      DecimalInjective(i, j);
    }
  }

  // ---------------------------------------------------------------------
  // save_mapping

  function MappingLine(p: Pair): string
  {
    p.0 + "\t" + p.1
  }

  function MappingLines(mapped: seq<Pair>): (r: seq<string>)
    ensures |r| == |mapped|
    ensures forall i :: 0 <= i < |mapped| ==> r[i] == MappingLine(mapped[i])
  {
    seq(|mapped|, i requires 0 <= i < |mapped| => MappingLine(mapped[i]))
  }

  /** `save_mapping`, returning the file's contents. */
  method SaveMapping(mapped: seq<Pair>) returns (text: string)
    ensures text == Unlines(MappingLines(mapped))
  {
    text := [];
    for k := 0 to |mapped|
      invariant text == Unlines(MappingLines(mapped[..k]))
    {
      var line := mapped[k].0 + "\t" + mapped[k].1 + "\n";
      UnlinesSnoc(MappingLines(mapped[..k]), MappingLine(mapped[k]));
      assert MappingLines(mapped[..k + 1]) == MappingLines(mapped[..k]) + [MappingLine(mapped[k])];
      text := text + line;
    }
    assert mapped[..|mapped|] == mapped;
  }

  /** Reading a mapping table back: one pair per line, two tab-separated
      columns. */
  function ParseMapping(text: string): Option<seq<Pair>>
  {
    ParseMappingLines(Lines(text))
  }

  function ParseMappingLines(ls: seq<string>): (r: Option<seq<Pair>>)
    ensures r.Some? ==> |r.value| == |ls|
  {
    if |ls| == 0 then Some([])
    else match ParseMappingLines(ls[..|ls| - 1])
      case None => None
      case Some(prev) =>
        var cols := Split(ls[|ls| - 1], '\t');
        if |cols| == 2 then Some(prev + [(cols[0], cols[1])]) else None
  }

  /** A name that survives a line of the table unchanged. */
  predicate Tabular(name: string)
  {
    '\t' !in name && '\n' !in name && '\r' !in name
  }

  /** The saved table reads back as the pairs it was written from. */
  lemma {:induction false} MappingRoundTrip(mapped: seq<Pair>)
    requires forall i :: 0 <= i < |mapped| ==> Tabular(mapped[i].0) && Tabular(mapped[i].1)
    ensures ParseMapping(Unlines(MappingLines(mapped))) == Some(mapped)
  {
    var ls := MappingLines(mapped);
    forall i | 0 <= i < |ls|
      ensures '\n' !in ls[i] && !(|ls[i]| > 0 && ls[i][|ls[i]| - 1] == '\r')
    {
      TabularLine(mapped[i]);
    }
    LinesUnlines(ls);
    ParseMappingLinesOf(mapped);
  }

  lemma {:induction false} TabularLine(p: Pair)
    requires Tabular(p.0) && Tabular(p.1)
    ensures '\n' !in MappingLine(p) && '\r' !in MappingLine(p)
    ensures Split(MappingLine(p), '\t') == [p.0, p.1]
  {
    assert MappingLine(p) == Join([p.0, p.1], "\t");
    SplitJoin([p.0, p.1], '\t');
  }

  lemma {:induction false} ParseMappingLinesOf(mapped: seq<Pair>)
    requires forall i :: 0 <= i < |mapped| ==> Tabular(mapped[i].0) && Tabular(mapped[i].1)
    ensures ParseMappingLines(MappingLines(mapped)) == Some(mapped)
  {
    if |mapped| > 0 {
      var p := mapped[..|mapped| - 1];
      ParseMappingLinesOf(p);
      var ls := MappingLines(mapped);
      assert ls[..|ls| - 1] == MappingLines(p);
      assert ls[|ls| - 1] == MappingLine(mapped[|mapped| - 1]);
      TabularLine(mapped[|mapped| - 1]);
      assert ParseMappingLines(ls) == Some(mapped[..|mapped| - 1] + [mapped[|mapped| - 1]]);
      assert mapped[..|mapped| - 1] + [mapped[|mapped| - 1]] == mapped;
    }
  }

  // ---------------------------------------------------------------------
  // create_mapped_fasta

  /** Position of the first pair whose old name is `key`. */
  function FindOld(mapped: seq<Pair>, key: string): (r: Option<nat>)
    ensures r.None? <==> forall i :: 0 <= i < |mapped| ==> mapped[i].0 != key
    ensures r.Some? ==> r.value < |mapped| && mapped[r.value].0 == key &&
                        forall i :: 0 <= i < r.value ==> mapped[i].0 != key
  {
    if |mapped| == 0 then None
    else if mapped[0].0 == key then Some(0)
    else match FindOld(mapped[1..], key)
      case None => None
      case Some(k) => Some(k + 1)
  }

  predicate IsHeader(l: string)
  {
    StartsWith(l, ">")
  }

  /** One line of the rewritten FASTA, without its newline. */
  function MapLine(l: string, mapped: seq<Pair>): Result<string, MapError>
  {
    if IsHeader(l) then
      match FindOld(mapped, RemoveChar(l, '>'))
      case None => Err(NoMapping(l))
      case Some(k) => Ok(">" + mapped[k].1)
    else Ok(l)
  }

  /** All lines rewritten; the first unmapped header stops the run. */
  function MapLines(ls: seq<string>, mapped: seq<Pair>): Result<seq<string>, MapError>
  {
    if |ls| == 0 then Ok([])
    else match MapLines(ls[..|ls| - 1], mapped)
      case Err(e) => Err(e)
      case Ok(prev) =>
        match MapLine(ls[|ls| - 1], mapped)
        case Err(e) => Err(e)
        case Ok(l) => Ok(prev + [l])
  }

  /** The rewritten file. */
  function MappedFasta(input: string, mapped: seq<Pair>): Result<string, MapError>
  {
    match MapLines(Lines(input), mapped)
    case Err(e) => Err(e)
    case Ok(ls) => Ok(Unlines(ls))
  }

  /** `create_mapped_fasta`, returning the file's contents. */
  method CreateMappedFasta(input: string, mapped: seq<Pair>) returns (r: Result<string, MapError>)
    ensures r == MappedFasta(input, mapped)
  {
    var ls := Lines(input);
    var newFasta: string := [];
    ghost var done: seq<string> := [];
    for k := 0 to |ls|
      invariant MapLines(ls[..k], mapped) == Ok(done)
      invariant newFasta == Unlines(done)
    {
      assert ls[..k + 1][..k] == ls[..k];
      var l := ls[k];
      var line: string;
      if IsHeader(l) {
        var toReplace := RemoveChar(l, '>');
        var found := FindOld(mapped, toReplace);
        if found.None? {
          MapLinesErrSticky(ls, mapped, k + 1);
          return Err(NoMapping(l));
        }
        line := ">" + mapped[found.value].1;
      } else {
        line := l;
      }
      UnlinesSnoc(done, line);
      done := done + [line];
      newFasta := newFasta + line + "\n";
    }
    assert ls[..|ls|] == ls;
    r := Ok(newFasta);
  }

  lemma {:induction false} MapLinesErrSticky(ls: seq<string>, mapped: seq<Pair>, n: nat)
    requires n <= |ls| && MapLines(ls[..n], mapped).Err?
    ensures MapLines(ls, mapped) == MapLines(ls[..n], mapped)
    decreases |ls| - n
  {
    if n < |ls| {
      assert ls[..n + 1][..n] == ls[..n];
      MapLinesErrSticky(ls, mapped, n + 1);
    } else {
      assert ls[..n] == ls;
    }
  }

  /** The rewrite succeeds exactly when every header has a pair; it then
      keeps one output line per input line, copies every other line, and
      replaces each header by the new name of the first matching pair. */
  lemma {:induction false} MapLinesSpec(ls: seq<string>, mapped: seq<Pair>)
    ensures MapLines(ls, mapped).Ok? <==>
            forall k :: 0 <= k < |ls| && IsHeader(ls[k]) ==> FindOld(mapped, RemoveChar(ls[k], '>')).Some?
    ensures MapLines(ls, mapped).Ok? ==> |MapLines(ls, mapped).value| == |ls|
    ensures MapLines(ls, mapped).Ok? ==>
            forall k :: 0 <= k < |ls| && !IsHeader(ls[k]) ==> MapLines(ls, mapped).value[k] == ls[k]
    ensures MapLines(ls, mapped).Ok? ==>
            forall k :: 0 <= k < |ls| && IsHeader(ls[k]) ==>
              MapLines(ls, mapped).value[k] == ">" + mapped[FindOld(mapped, RemoveChar(ls[k], '>')).value].1
  {
    if |ls| > 0 {
      var p := ls[..|ls| - 1];
      MapLinesSpec(p, mapped);
      assert forall k :: 0 <= k < |p| ==> p[k] == ls[k];
      if MapLines(ls, mapped).Ok? {
        var out := MapLines(ls, mapped).value;
        assert out == MapLines(p, mapped).value + [MapLine(ls[|ls| - 1], mapped).value];
      }
    }
  }

  /** The mapping read the other way: new name to old name. */
  function Inverse(mapped: seq<Pair>): (r: seq<Pair>)
    ensures |r| == |mapped|
    ensures forall i :: 0 <= i < |mapped| ==> r[i] == (mapped[i].1, mapped[i].0)
  {
    seq(|mapped|, i requires 0 <= i < |mapped| => (mapped[i].1, mapped[i].0))
  }

  /** A header line naming a record: `>` followed by a name without `>`. */
  predicate NamedHeader(l: string, names: seq<string>)
  {
    |l| > 0 && l[0] == '>' && '>' !in l[1..] && l[1..] in names
  }

  lemma {:induction false} RemoveCharAbsent(s: string, c: char)
    requires c !in s
    ensures RemoveChar(s, c) == s
  {
    if |s| > 0 {
      assert c !in s[1..];
      RemoveCharAbsent(s[1..], c);
    }
  }

  lemma {:induction false} NamedHeaderKey(l: string, names: seq<string>)
    requires NamedHeader(l, names)
    ensures RemoveChar(l, '>') == l[1..]
  {
    RemoveCharAbsent(l[1..], '>');
  }

  /** A numbered name holds no `>` when the prefix holds none. */
  lemma {:induction false} NewHeadNoMarker(newName: string, k: nat)
    requires '>' !in newName
    ensures '>' !in NewHead(newName, k)
  {
    assert NewHead(newName, k) == newName + ("_" + Decimal(k));
    assert forall c :: c in Decimal(k) ==> IsDigit(c);
  }

  /** Looking up the `k`-th new name among the swapped pairs finds pair `k`:
      the new names are distinct. */
  lemma {:induction false} InverseFindsNew(mapped: seq<Pair>, names: seq<string>, newName: string, k: nat)
    requires IsMapping(mapped, names, newName) && k < |mapped|
    ensures FindOld(Inverse(mapped), NewHead(newName, k)) == Some(k)
  {
    assert Inverse(mapped)[k].0 == NewHead(newName, k);
    var j := FindOld(Inverse(mapped), NewHead(newName, k)).value;
    if j < k {
      NewHeadsDistinct(mapped, names, newName, j, k);
    }
  }

  /** `>` followed by a name without `>` is a header whose key is that name. */
  lemma {:induction false} MarkedName(name: string)
    requires '>' !in name
    ensures IsHeader(">" + name)
    ensures RemoveChar(">" + name, '>') == name
  {
    RemoveCharAbsent(name, '>');
    assert (">" + name)[1..] == name;
  }

  /** One line mapped there and back. */
  lemma {:induction false} MapBackLine(l: string, names: seq<string>, newName: string, mapped: seq<Pair>)
    requires IsMapping(mapped, names, newName)
    requires '>' !in newName
    requires IsHeader(l) ==> NamedHeader(l, names)
    ensures MapLine(l, mapped).Ok?
    ensures MapLine(MapLine(l, mapped).value, Inverse(mapped)) == Ok(l)
  {
    if IsHeader(l) {
      NamedHeaderKey(l, names);
      var i :| 0 <= i < |names| && names[i] == l[1..];
      assert mapped[i].0 == l[1..];
      var k := FindOld(mapped, l[1..]).value;
      var back := NewHead(newName, k);
      assert MapLine(l, mapped) == Ok(">" + back);
      NewHeadNoMarker(newName, k);
      MarkedName(back);
      InverseFindsNew(mapped, names, newName, k);
      assert Inverse(mapped)[k].1 == l[1..];
      assert l == ">" + l[1..];
    }
  }

  /** Mapping the headers and then mapping them back with the inverse pairs
      restores the file's lines, when every header names a record and the
      replacement prefix has no `>`. */
  lemma {:induction false} MapBack(ls: seq<string>, names: seq<string>, newName: string, mapped: seq<Pair>)
    requires IsMapping(mapped, names, newName)
    requires '>' !in newName
    requires forall k :: 0 <= k < |ls| && IsHeader(ls[k]) ==> NamedHeader(ls[k], names)
    ensures MapLines(ls, mapped).Ok?
    ensures MapLines(MapLines(ls, mapped).value, Inverse(mapped)) == Ok(ls)
  {
    if |ls| > 0 {
      var p, l := ls[..|ls| - 1], ls[|ls| - 1];
      MapBack(p, names, newName, mapped);
      MapBackLine(l, names, newName, mapped);
      var out := MapLines(ls, mapped).value;
      assert out == MapLines(p, mapped).value + [MapLine(l, mapped).value];
      assert out[..|out| - 1] == MapLines(p, mapped).value;
      assert ls == p + [l];
    }
  }

  /** `map_fasta_head` after validation: `keys` are the record names in the
      iteration order of the validated map; returns the table and the
      rewritten FASTA. */
  method MapFastaHead(keys: seq<string>, input: string, replacer: string)
    returns (table: string, fasta: Result<string, MapError>)
    ensures exists mapped :: (IsMapping(mapped, keys, replacer) &&
            table == Unlines(MappingLines(mapped)) && fasta == MappedFasta(input, mapped))
  {
    var newMap := CreateMapping(keys, replacer);
    table := SaveMapping(newMap);
    fasta := CreateMappedFasta(input, newMap);
  }
}
