/** Nucleotide complement and reversal used for MINUS-strand fragments.
    The table is the IUPAC one (upper and lower case): A/T, C/G, R/Y, K/M,
    B/V, D/H, and S, W, N map to themselves.  Any other character has no
    complement, and complementing a sequence that holds one fails. */
module Nucleotide {
  import opened Wrappers

  function ComplementBase(c: char): Option<char>
  {
    match c
    case 'A' => Some('T') case 'T' => Some('A') case 'C' => Some('G') case 'G' => Some('C')
    case 'R' => Some('Y') case 'Y' => Some('R') case 'K' => Some('M') case 'M' => Some('K')
    case 'B' => Some('V') case 'V' => Some('B') case 'D' => Some('H') case 'H' => Some('D')
    case 'S' => Some('S') case 'W' => Some('W') case 'N' => Some('N')
    case 'a' => Some('t') case 't' => Some('a') case 'c' => Some('g') case 'g' => Some('c')
    case 'r' => Some('y') case 'y' => Some('r') case 'k' => Some('m') case 'm' => Some('k')
    case 'b' => Some('v') case 'v' => Some('b') case 'd' => Some('h') case 'h' => Some('d')
    case 's' => Some('s') case 'w' => Some('w') case 'n' => Some('n')
    case _ => None
  }

  predicate Complementable(s: string)
  {
    forall i :: 0 <= i < |s| ==> ComplementBase(s[i]).Some?
  }

  /** Base-by-base complement; fails with the first character that has none. */
  function Complement(s: string): (r: Result<string, char>)
    ensures r.Ok? <==> Complementable(s)
    ensures r.Ok? ==> |r.value| == |s|
    ensures r.Ok? ==> forall i :: 0 <= i < |s| ==> ComplementBase(s[i]) == Some(r.value[i])
    ensures r.Err? ==> r.error in s && ComplementBase(r.error).None?
  {
    if |s| == 0 then Ok([])
    else match ComplementBase(s[0])
      case None => Err(s[0])
      case Some(d) =>
        match Complement(s[1..])
        case Err(e) => Err(e)
        case Ok(rest) => Ok([d] + rest)
  }

  /** Characters in reverse order. */
  function Reverse(s: string): (r: string)
    ensures |r| == |s|
    ensures forall i :: 0 <= i < |s| ==> r[i] == s[|s| - 1 - i]
  {
    if |s| == 0 then [] else Reverse(s[1..]) + [s[0]]
  }

  /** The complement of a complementable sequence, reversed. */
  function ReverseComplement(s: string): (r: Result<string, char>)
    ensures r.Ok? <==> Complementable(s)
    ensures r.Ok? ==> |r.value| == |s|
    ensures r.Ok? ==> forall i :: 0 <= i < |s| ==> ComplementBase(s[|s| - 1 - i]) == Some(r.value[i])
  {
    match Complement(s)
    case Err(e) => Err(e)
    case Ok(c) => Ok(Reverse(c))
  }

  /** The table is an involution: every complement is complemented back. */
  lemma {:induction false} ComplementBaseInvolution(c: char, d: char)
    requires ComplementBase(c) == Some(d)
    ensures ComplementBase(d) == Some(c)
  {
  }

  /** Complementing twice gives the sequence back. */
  lemma {:induction false} ComplementTwice(s: string)
    requires Complementable(s)
    ensures Complement(s).Ok? && Complement(Complement(s).value) == Ok(s)
  {
    var c := Complement(s).value;
    forall i | 0 <= i < |c| ensures ComplementBase(c[i]) == Some(s[i]) {
      ComplementBaseInvolution(s[i], c[i]);
    }
    assert Complement(c).value == s;
  }

  /** Reversing twice gives the sequence back. */
  lemma {:induction false} ReverseTwice(s: string)
    ensures Reverse(Reverse(s)) == s
  {
    var r := Reverse(s);
    forall i | 0 <= i < |s| ensures Reverse(r)[i] == s[i] {
      assert Reverse(r)[i] == r[|r| - 1 - i];
    }
  }

  /** Complementing commutes with reversing. */
  lemma {:induction false} ComplementReverse(s: string)
    requires Complementable(s)
    ensures Complementable(Reverse(s))
    ensures Complement(Reverse(s)) == Ok(Reverse(Complement(s).value))
  {
    var c, rs := Complement(s).value, Reverse(s);
    forall i | 0 <= i < |rs| ensures ComplementBase(rs[i]) == Some(c[|s| - 1 - i]) {
      assert rs[i] == s[|s| - 1 - i];
    }
    assert Complementable(rs);
    var d := Complement(rs).value;
    forall i | 0 <= i < |rs| ensures d[i] == Reverse(c)[i] {
      assert ComplementBase(rs[i]) == Some(d[i]);
    }
    assert d == Reverse(c);
  }

  /** Reverse-complementing twice gives the sequence back: a MINUS fragment
      read on the other strand is the original slice. */
  lemma {:induction false} ReverseComplementTwice(s: string)
    requires Complementable(s)
    ensures ReverseComplement(s).Ok?
    ensures ReverseComplement(ReverseComplement(s).value) == Ok(s)
  {
    var c := Complement(s).value;
    ComplementTwice(s);
    ComplementReverse(c);
    ReverseTwice(s);
  }
}
