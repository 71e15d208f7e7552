/** FASTA header rewriting shared by the splitting and mapping tools:
    `sanitise_header` and `get_gene_id`. */
module Generics {
  import opened Wrappers
  import opened Text

  /** A FASTA definition line: the name, and the description after the
      first space if there is one. */
  datatype Definition = Definition(name: string, description: Option<string>)

  /** The definition as noodles prints it: `>name` or `>name description`. */
  function Render(def: Definition): (r: string)
    ensures |r| > 0 && r[0] == '>'
  {
    ">" + def.name + (match def.description case None => "" case Some(d) => " " + d)
  }

  datatype HeaderError =
    | TooFewFields(count: nat)   // indexing field 4 or 5 of an Ensembl header
    | EmptyToken                 // slicing `[1..]` of an empty token
    | NotCharBoundary            // slicing `[1..]` inside a multi-byte first character

  /** The key naming the Ensembl identifier. */
  function Modifier(dataType: string): (m: string)
    ensures m == "protein_id" <==> dataType == "pep"
    ensures m == "transcript_id" <==> dataType != "pep"
  {
    if dataType == "pep" then "protein_id" else "transcript_id"
  }

  /** `sanitise_header` applied to the rendered definition `h`. */
  function SanitiseRendered(h: string, dataType: string): (r: Result<string, HeaderError>)
    requires |h| > 0 && h[0] == '>'
    ensures r.Err? <==> Contains(h, "ENS") && |Split(h, '|')| < 6
    ensures r.Err? ==> r.error == TooFewFields(|Split(h, '|')|)
    ensures !Contains(h, "ENS") ==> r.Ok? && StartsWith(r.value, ">gene_id=") && ' ' !in r.value
  {
    if Contains(h, "ENS") then
      var f := Split(h, '|');
      if |f| < 6 then Err(TooFewFields(|f|))
      else Ok(">" + Modifier(dataType) + "=" + RemoveChar(f[0], '>') + ";gene_name=" + f[4] +
              ";transcript_name=" + f[5] + ";gene_id=" + f[1])
    else
      var first := Split(h, ' ')[0];
      FirstPieceNoSep(h, ' ');
      var id := first[1..];
      assert ' ' !in id by { assert forall c :: c in id ==> c in first; }
      Ok(">gene_id=" + id)
  }

  /** `sanitise_header`: an Ensembl-style header (any containing "ENS") is
      rebuilt from its `|`-fields, any other is reduced to its first word. */
  function SanitiseHeader(def: Definition, dataType: string): Result<string, HeaderError>
  {
    SanitiseRendered(Render(def), dataType)
  }

  /** `get_gene_id`: the first space-separated word without its first
      character; `ens` is not used. */
  function GetGeneId(header: string, ens: bool): (r: Result<string, HeaderError>)
    ensures r.Ok? <==> |header| > 0 && header[0] != ' ' && header[0] as int < 128
    ensures r.Ok? ==> ' ' !in r.value && Split(header, ' ')[0] == [header[0]] + r.value
  {
    var first := Split(header, ' ')[0];
    FirstPieceNoSep(header, ' ');
    if |first| == 0 then Err(EmptyToken)
    else if first[0] as int >= 128 then Err(NotCharBoundary)
    else
      assert ' ' !in first[1..] by { assert forall c :: c in first[1..] ==> c in first; }
      Ok(first[1..])
  }

  /** The first piece of a split holds no separator, and starts with the
      text's first character unless that is the separator. */
  lemma {:induction false} FirstPieceNoSep(s: string, c: char)
    ensures c !in Split(s, c)[0]
    ensures |Split(s, c)[0]| > 0 <==> |s| > 0 && s[0] != c
    ensures |s| > 0 && s[0] != c ==> Split(s, c)[0][0] == s[0]
  {
    if c in Split(s, c)[0] {
      SplitOnPieces(s, {c}, 0, c);
    }
  }

  // ---------------------------------------------------------------------
  // Properties

  /** Ensembl round trip: a header assembled from at least six `|`-free
      fields comes back as those fields in the rewritten header. */
  lemma {:induction false} EnsemblFields(fields: seq<string>, dataType: string)
    requires |fields| >= 6
    requires forall i :: 0 <= i < |fields| ==> '|' !in fields[i]
    requires |fields[0]| > 0 && fields[0][0] == '>'
    requires Contains(Join(fields, "|"), "ENS")
    ensures |Join(fields, "|")| > 0 && Join(fields, "|")[0] == '>'
    ensures SanitiseRendered(Join(fields, "|"), dataType) ==
            Ok(">" + Modifier(dataType) + "=" + RemoveChar(fields[0], '>') + ";gene_name=" + fields[4] +
               ";transcript_name=" + fields[5] + ";gene_id=" + fields[1])
  {
    JoinFirst(fields, "|");
    SplitJoin(fields, '|');
  }

  lemma {:induction false} JoinFirst(parts: seq<string>, sep: string)
    requires |parts| >= 1
    ensures Join(parts, sep)[..|parts[0]|] == parts[0]
  {
  }

  /** Fewer than six fields is the one way the Ensembl branch fails. */
  lemma {:induction false} EnsemblTooFewFields(fields: seq<string>, dataType: string)
    requires 1 <= |fields| < 6
    requires forall i :: 0 <= i < |fields| ==> '|' !in fields[i]
    requires |fields[0]| > 0 && fields[0][0] == '>'
    requires Contains(Join(fields, "|"), "ENS")
    ensures |Join(fields, "|")| > 0 && Join(fields, "|")[0] == '>'
    ensures SanitiseRendered(Join(fields, "|"), dataType) == Err(TooFewFields(|fields|))
  {
    JoinFirst(fields, "|");
    SplitJoin(fields, '|');
  }

  /** Outside the Ensembl branch the header is `>gene_id=` and the
      definition's name. */
  lemma {:induction false} PlainHeader(def: Definition, dataType: string)
    requires !Contains(Render(def), "ENS") && ' ' !in def.name
    ensures SanitiseHeader(def, dataType) == Ok(">gene_id=" + def.name)
  {
    RenderFirstWord(def);
  }

  lemma {:induction false} RenderFirstWord(def: Definition)
    requires ' ' !in def.name
    ensures Split(Render(def), ' ')[0] == ">" + def.name
  {
    var head := ">" + def.name;
    assert forall i :: 0 <= i < |head| ==> head[i] !in {' '} by {
      forall i | 0 <= i < |head| ensures head[i] != ' ' {
        if i > 0 { assert head[i] == def.name[i - 1]; }
      }
    }
    match def.description
    case None =>
      assert Render(def) == head;
      SplitOnNoSep(head, {' '});
    case Some(d) =>
      assert Render(def) == head + [' '] + d;
      SplitOnFirstSep(head, ' ', d, {' '});
  }

  /** The two functions agree outside the Ensembl branch: the plain header
      is `>gene_id=` followed by the gene id of the rendered definition. */
  lemma {:induction false} PlainHeaderIsGeneId(def: Definition, dataType: string, ens: bool)
    requires !Contains(Render(def), "ENS")
    ensures GetGeneId(Render(def), ens).Ok?
    ensures SanitiseHeader(def, dataType) == Ok(">gene_id=" + GetGeneId(Render(def), ens).value)
  {
  }

  /** The gene id of a rendered definition is its name. */
  lemma {:induction false} GeneIdOfDefinition(def: Definition, ens: bool)
    requires ' ' !in def.name
    ensures GetGeneId(Render(def), ens) == Ok(def.name)
  {
    RenderFirstWord(def);
  }
}
