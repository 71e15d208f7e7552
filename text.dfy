/** Models of the Rust standard-library string operations the tools rely on:
    `str::split` with a character pattern, `split_whitespace`, `join`,
    `replace`, `contains`, `lines`, decimal `Display` of integers and
    `usize::from_str`.  Strings are sequences of Unicode scalar values. */
module Text {
  import opened Wrappers
  import opened Seqs

  /** Split at every character in `seps`, as `str::split` does with a
      character pattern: k separators give k + 1 pieces, empty pieces kept. */
  function SplitOn(s: string, seps: set<char>): (r: seq<string>)
    ensures |r| >= 1
    decreases |s|
  {
    if |s| == 0 then [[]]
    else
      var rest := SplitOn(s[1..], seps);
      if s[0] in seps then [[]] + rest
      else [[s[0]] + rest[0]] + rest[1..]
  }

  /** `s.split(c)` for a single character `c`. */
  function Split(s: string, c: char): (r: seq<string>)
    ensures |r| >= 1
  {
    SplitOn(s, {c})
  }

  /** `parts.join(sep)`: `sep` between consecutive parts, not after the last. */
  function Join(parts: seq<string>, sep: string): string
  {
    if |parts| == 0 then []
    else if |parts| == 1 then parts[0]
    else parts[0] + sep + Join(parts[1..], sep)
  }

  /** The characters Rust's `char::is_whitespace` accepts (Unicode White_Space). */
  const Whitespace: set<char> :=
    {'\t', '\n', '\U{B}', '\U{C}', '\r', ' ', '\U{85}', '\U{A0}', '\U{1680}',
     '\U{2000}', '\U{2001}', '\U{2002}', '\U{2003}', '\U{2004}', '\U{2005}',
     '\U{2006}', '\U{2007}', '\U{2008}', '\U{2009}', '\U{200A}', '\U{2028}',
     '\U{2029}', '\U{202F}', '\U{205F}', '\U{3000}'}

  predicate NoWhitespace(s: string)
  {
    forall i :: 0 <= i < |s| ==> s[i] !in Whitespace
  }

  /** The non-empty pieces, in order. */
  function NonEmpty(ps: seq<string>): (r: seq<string>)
    ensures forall i :: 0 <= i < |r| ==> r[i] != []
  {
    if |ps| == 0 then []
    else if ps[0] == [] then NonEmpty(ps[1..])
    else [ps[0]] + NonEmpty(ps[1..])
  }

  /** `s.split_whitespace()`: the standard library defines it as a split on
      whitespace that drops the empty pieces. */
  function SplitWhitespace(s: string): seq<string>
  {
    NonEmpty(SplitOn(s, Whitespace))
  }

  /** `s.replace(a, b)` for single characters. */
  function ReplaceChar(s: string, a: char, b: char): (r: string)
    ensures |r| == |s|
  {
    if |s| == 0 then [] else [if s[0] == a then b else s[0]] + ReplaceChar(s[1..], a, b)
  }

  /** `s.replace(c, "")`: every occurrence of `c` removed. */
  function RemoveChar(s: string, c: char): (r: string)
    ensures c !in r
    ensures |r| <= |s|
  {
    if |s| == 0 then [] else (if s[0] == c then [] else [s[0]]) + RemoveChar(s[1..], c)
  }

  predicate StartsWith(s: string, prefix: string)
  {
    |prefix| <= |s| && s[..|prefix|] == prefix
  }

  /** `s.contains(pat)`: `pat` occurs at some position of `s`. */
  predicate Contains(s: string, pat: string)
    decreases |s|
  {
    |pat| <= |s| && (s[..|pat|] == pat || Contains(s[1..], pat))
  }

  /** `s.replace(pat, rep)`: every non-overlapping occurrence of `pat`, found
      left to right, replaced by `rep`. */
  function ReplaceAll(s: string, pat: string, rep: string): string
    requires |pat| > 0
    decreases |s|
  {
    if |s| < |pat| then s
    else if s[..|pat|] == pat then rep + ReplaceAll(s[|pat|..], pat, rep)
    else [s[0]] + ReplaceAll(s[1..], pat, rep)
  }

  /** ASCII upper case to lower case, other characters unchanged. */
  function LowerAscii(s: string): (r: string)
    ensures |r| == |s|
  {
    seq(|s|, i requires 0 <= i < |s| => LowerChar(s[i]))
  }

  function LowerChar(c: char): char
  {
    if 'A' <= c <= 'Z' then (c as int + 32) as char else c
  }

  // ---------------------------------------------------------------------
  // Decimal numbers

  const UsizeMax: nat := 0xFFFF_FFFF_FFFF_FFFF

  predicate IsDigit(c: char)
  {
    '0' <= c <= '9'
  }

  predicate AllDigits(s: string)
  {
    forall i :: 0 <= i < |s| ==> IsDigit(s[i])
  }

  function DigitChar(d: nat): (c: char)
    requires d < 10
    ensures IsDigit(c) && c as int - '0' as int == d
  {
    ('0' as int + d) as char
  }

  /** Decimal rendering of a natural number, as `{}` formats an integer. */
  function Decimal(n: nat): (r: string)
    ensures |r| >= 1 && AllDigits(r)
  {
    if n < 10 then [DigitChar(n)] else Decimal(n / 10) + [DigitChar(n % 10)]
  }

  /** Value of a string of decimal digits. */
  function DigitsValue(s: string): nat
    requires AllDigits(s)
  {
    if |s| == 0 then 0
    else DigitsValue(s[..|s| - 1]) * 10 + (s[|s| - 1] as int - '0' as int)
  }

  /** `s.parse::<usize>()` on a 64-bit target: an optional leading `+`, then
      at least one ASCII digit and nothing else, with a value that fits. */
  function ParseUsize(s: string): Option<nat>
  {
    if |s| == 0 then None
    else
      var digits := if s[0] == '+' then s[1..] else s;
      if |digits| == 0 || !AllDigits(digits) then None
      else if DigitsValue(digits) > UsizeMax then None
      else Some(DigitsValue(digits))
  }

  // ---------------------------------------------------------------------
  // Lines

  /** Drop one trailing carriage return. */
  function StripCr(l: string): string
  {
    if |l| > 0 && l[|l| - 1] == '\r' then l[..|l| - 1] else l
  }

  function StripCrAll(ls: seq<string>): (r: seq<string>)
    ensures |r| == |ls|
  {
    if |ls| == 0 then [] else [StripCr(ls[0])] + StripCrAll(ls[1..])
  }

  /** `text.lines()` (and `BufRead::lines`): split after every `\n`, drop the
      `\n` and a `\r` just before it, and yield no final empty line. */
  function Lines(text: string): seq<string>
  {
    var ps := Split(text, '\n');
    StripCrAll(ps[..|ps| - 1]) + (if ps[|ps| - 1] == [] then [] else [ps[|ps| - 1]])
  }

  /** Each line followed by `\n`: what writing the lines one by one produces. */
  function Unlines(ls: seq<string>): string
  {
    if |ls| == 0 then [] else ls[0] + "\n" + Unlines(ls[1..])
  }

  // ---------------------------------------------------------------------
  // Lemmas

  /** A piece holds no separator. */
  lemma {:induction false} SplitOnPieces(s: string, seps: set<char>, i: nat, c: char)
    requires i < |SplitOn(s, seps)| && c in SplitOn(s, seps)[i]
    ensures c !in seps
    decreases |s|
  {
    if |s| > 0 {
      var rest := SplitOn(s[1..], seps);
      if s[0] in seps {
        SplitOnPieces(s[1..], seps, i - 1, c);
      } else if i == 0 {
        if c != s[0] { SplitOnPieces(s[1..], seps, 0, c); }
      } else {
        SplitOnPieces(s[1..], seps, i, c);
      }
    }
  }

  /** Without a separator there is exactly one piece. */
  lemma {:induction false} SplitOnNoSep(s: string, seps: set<char>)
    requires forall i :: 0 <= i < |s| ==> s[i] !in seps
    ensures SplitOn(s, seps) == [s]
    decreases |s|
  {
    if |s| > 0 {
      SplitOnNoSep(s[1..], seps);
      assert [s[0]] + s[1..] == s;
    }
  }

  /** A first separator ends the first piece. */
  lemma {:induction false} SplitOnFirstSep(a: string, c: char, b: string, seps: set<char>)
    requires forall i :: 0 <= i < |a| ==> a[i] !in seps
    requires c in seps
    ensures SplitOn(a + [c] + b, seps) == [a] + SplitOn(b, seps)
    decreases |a|
  {
    if |a| == 0 {
      assert a + [c] + b == [c] + b;
      assert ([c] + b)[1..] == b;
    } else {
      SplitOnFirstSep(a[1..], c, b, seps);
      assert (a + [c] + b)[1..] == a[1..] + [c] + b;
      assert [a[0]] + a[1..] == a;
    }
  }

  /** One step of `SplitOn` at a separator. */
  lemma {:induction false} SplitOnConsSep(x: char, t: string, seps: set<char>)
    requires x in seps
    ensures SplitOn([x] + t, seps) == [[]] + SplitOn(t, seps)
  {
    assert ([x] + t)[1..] == t;
  }

  /** One step of `SplitOn` at any other character. */
  lemma {:induction false} SplitOnConsOther(x: char, t: string, seps: set<char>)
    requires x !in seps
    ensures SplitOn([x] + t, seps) == [[x] + SplitOn(t, seps)[0]] + SplitOn(t, seps)[1..]
  {
    assert ([x] + t)[1..] == t;
  }

  /** The step of `SplitOnAtSep`: putting one more character in front of
      both `a` and `a + [c] + b` keeps the equation. */
  lemma {:induction false} SplitOnAtSepStep(x: char, t: string, c: char, b: string, seps: set<char>)
    requires SplitOn(t + [c] + b, seps) == SplitOn(t, seps) + SplitOn(b, seps)
    ensures SplitOn([x] + (t + [c] + b), seps) == SplitOn([x] + t, seps) + SplitOn(b, seps)
  {
    var left, right := SplitOn(t, seps), SplitOn(b, seps);
    if x in seps {
      SplitOnConsSep(x, t, seps);
      SplitOnConsSep(x, t + [c] + b, seps);
      assert [[]] + (left + right) == ([[]] + left) + right;
    } else {
      SplitOnConsOther(x, t, seps);
      SplitOnConsOther(x, t + [c] + b, seps);
      HeadMerge([x], left, right);
    }
  }

  /** Extending the first piece commutes with appending further pieces. */
  lemma {:induction false} HeadMerge(p: string, left: seq<string>, right: seq<string>)
    requires |left| >= 1
    ensures [p + (left + right)[0]] + (left + right)[1..] == ([p + left[0]] + left[1..]) + right
  {
    assert (left + right)[0] == left[0];
    assert (left + right)[1..] == left[1..] + right;
  }

  /** Splitting at a separator splits the two sides independently. */
  lemma {:induction false} SplitOnAtSep(a: string, c: char, b: string, seps: set<char>)
    requires c in seps
    ensures SplitOn(a + [c] + b, seps) == SplitOn(a, seps) + SplitOn(b, seps)
    decreases |a|
  {
    if |a| == 0 {
      assert a + [c] + b == [c] + b;
      SplitOnConsSep(c, b, seps);
    } else {
      assert a == [a[0]] + a[1..];
      assert a + [c] + b == [a[0]] + (a[1..] + [c] + b);
      SplitOnAtSep(a[1..], c, b, seps);
      SplitOnAtSepStep(a[0], a[1..], c, b, seps);
    }
  }

  /** Joining the pieces with the separator gives the string back. */
  lemma {:induction false} JoinSplit(s: string, c: char)
    ensures Join(Split(s, c), [c]) == s
    decreases |s|
  {
    if |s| > 0 {
      JoinSplit(s[1..], c);
      var rest := Split(s[1..], c);
      if s[0] == c {
        assert Split(s, c) == [[]] + rest;
        assert ([[]] + rest)[1..] == rest;
      } else if |rest| == 1 {
        assert Split(s, c) == [[s[0]] + rest[0]];
      } else {
        assert Split(s, c) == [[s[0]] + rest[0]] + rest[1..];
        assert ([[s[0]] + rest[0]] + rest[1..])[1..] == rest[1..];
      }
    }
  }

  /** Splitting the joined pieces gives the pieces back, when no piece holds
      the separator. */
  lemma {:induction false} SplitJoin(parts: seq<string>, c: char)
    requires |parts| >= 1
    requires forall i :: 0 <= i < |parts| ==> c !in parts[i]
    ensures Split(Join(parts, [c]), c) == parts
  {
    if |parts| == 1 {
      SplitOnNoSep(parts[0], {c});
    } else {
      SplitJoin(parts[1..], c);
      SplitOnFirstSep(parts[0], c, Join(parts[1..], [c]), {c});
      assert parts[0] + [c] + Join(parts[1..], [c]) == Join(parts, [c]);
      assert [parts[0]] + parts[1..] == parts;
    }
  }

  /** Appending one more part to a join adds the separator and the part. */
  lemma {:induction false} JoinSnoc(parts: seq<string>, p: string, sep: string)
    requires |parts| >= 1
    ensures Join(parts + [p], sep) == Join(parts, sep) + sep + p
  {
    if |parts| == 1 {
      assert (parts + [p])[1..] == [p];
    } else {
      JoinSnoc(parts[1..], p, sep);
      assert (parts + [p])[1..] == parts[1..] + [p];
    }
  }

  /** The tab-to-space normalisation before `split_whitespace` changes
      nothing: both characters are whitespace. */
  lemma {:induction false} TabNormalisationIrrelevant(s: string)
    ensures SplitOn(ReplaceChar(s, '\t', ' '), Whitespace) == SplitOn(s, Whitespace)
    decreases |s|
  {
    if |s| > 0 {
      TabNormalisationIrrelevant(s[1..]);
      var r := ReplaceChar(s, '\t', ' ');
      assert r[1..] == ReplaceChar(s[1..], '\t', ' ');
    }
  }

  /** Dropping empty pieces keeps a list of non-empty pieces as it is. */
  lemma {:induction false} NonEmptyKeeps(ps: seq<string>)
    requires forall i :: 0 <= i < |ps| ==> ps[i] != []
    ensures NonEmpty(ps) == ps
  {
    if |ps| > 0 {
      NonEmptyKeeps(ps[1..]);
    }
  }

  /** Four words separated by single separators are the four pieces. */
  lemma {:induction false} SplitOnFour(a: string, b: string, c: string, d: string, sep: char, seps: set<char>)
    requires sep in seps
    requires forall i :: 0 <= i < |a| ==> a[i] !in seps
    requires forall i :: 0 <= i < |b| ==> b[i] !in seps
    requires forall i :: 0 <= i < |c| ==> c[i] !in seps
    requires forall i :: 0 <= i < |d| ==> d[i] !in seps
    ensures SplitOn(a + [sep] + b + [sep] + c + [sep] + d, seps) == [a, b, c, d]
  {
    var ab := a + [sep] + b;
    var abc := ab + [sep] + c;
    SplitOnNoSep(a, seps);
    SplitOnNoSep(b, seps);
    SplitOnNoSep(c, seps);
    SplitOnNoSep(d, seps);
    SplitOnAtSep(a, sep, b, seps);
    SplitOnAtSep(ab, sep, c, seps);
    SplitOnAtSep(abc, sep, d, seps);
  }

  /** Four tab-separated words are the four whitespace-separated tokens. */
  lemma {:induction false} SplitWhitespaceTabbed(a: string, b: string, c: string, d: string)
    requires |a| > 0 && |b| > 0 && |c| > 0 && |d| > 0
    requires NoWhitespace(a) && NoWhitespace(b) && NoWhitespace(c) && NoWhitespace(d)
    ensures SplitWhitespace(ReplaceChar(a + "\t" + b + "\t" + c + "\t" + d, '\t', ' ')) == [a, b, c, d]
  {
    var line := a + "\t" + b + "\t" + c + "\t" + d;
    TabNormalisationIrrelevant(line);
    SplitOnFour(a, b, c, d, '\t', Whitespace);
    NonEmptyKeeps([a, b, c, d]);
  }

  /** A pattern whose first character does not occur is not contained. */
  lemma {:induction false} NotContainsFirstChar(s: string, pat: string)
    requires |pat| > 0 && pat[0] !in s
    ensures !Contains(s, pat)
    decreases |s|
  {
    if |pat| <= |s| {
      assert s[..|pat|][0] == s[0];
      NotContainsFirstChar(s[1..], pat);
    }
  }

  /** A leading occurrence of the pattern is replaced. */
  lemma {:induction false} ReplaceAllLeading(pat: string, rest: string, rep: string)
    requires |pat| > 0
    ensures ReplaceAll(pat + rest, pat, rep) == rep + ReplaceAll(rest, pat, rep)
  {
    assert (pat + rest)[..|pat|] == pat;
    assert (pat + rest)[|pat|..] == rest;
  }

  /** Without an occurrence of the pattern `replace` changes nothing. */
  lemma {:induction false} ReplaceAllAbsent(s: string, pat: string, rep: string)
    requires |pat| > 0 && !Contains(s, pat)
    ensures ReplaceAll(s, pat, rep) == s
    decreases |s|
  {
    if |s| >= |pat| {
      ReplaceAllAbsent(s[1..], pat, rep);
      assert [s[0]] + s[1..] == s;
    }
  }

  /** Reading the digits back gives the number. */
  lemma {:induction false} DecimalValue(n: nat)
    ensures DigitsValue(Decimal(n)) == n
  {
    if n >= 10 {
      DecimalValue(n / 10);
      var d := Decimal(n / 10) + [DigitChar(n % 10)];
      assert d[..|d| - 1] == Decimal(n / 10);
    }
  }

  /** `usize::from_str` inverts decimal formatting. */
  lemma {:induction false} DecimalParses(n: nat)
    requires n <= UsizeMax
    ensures ParseUsize(Decimal(n)) == Some(n)
  {
    DecimalValue(n);
    assert IsDigit(Decimal(n)[0]);
  }

  /** Distinct numbers have distinct renderings. */
  lemma {:induction false} DecimalInjective(m: nat, n: nat)
    requires Decimal(m) == Decimal(n)
    ensures m == n
  {
    DecimalValue(m);
    DecimalValue(n);
  }

  /** A string of digits followed by a non-digit: the digits are determined. */
  lemma {:induction false} DigitsPrefixUnique(d1: string, x1: string, d2: string, x2: string)
    requires AllDigits(d1) && AllDigits(d2)
    requires |x1| > 0 && |x2| > 0 && !IsDigit(x1[0]) && !IsDigit(x2[0])
    requires d1 + x1 == d2 + x2
    ensures d1 == d2 && x1 == x2
  {
    var k := if |d1| < |d2| then |d1| else |d2|;
    assert (d1 + x1)[k] == (d2 + x2)[k];
    assert |d1| == |d2|;
    assert d1 == (d1 + x1)[..|d1|];
    assert d2 == (d2 + x2)[..|d2|];
    assert x1 == (d1 + x1)[|d1|..];
    assert x2 == (d2 + x2)[|d2|..];
  }

  /** `Unlines` is a join with `\n` that also ends the last line. */
  lemma {:induction false} UnlinesAsJoin(ls: seq<string>)
    ensures Unlines(ls) == Join(ls + [[]], "\n")
  {
    if |ls| > 0 {
      UnlinesAsJoin(ls[1..]);
      assert (ls + [[]])[1..] == ls[1..] + [[]];
    }
  }

  lemma {:induction false} UnlinesSnoc(ls: seq<string>, l: string)
    ensures Unlines(ls + [l]) == Unlines(ls) + l + "\n"
  {
    if |ls| > 0 {
      assert (ls + [l])[1..] == ls[1..] + [l];
      UnlinesSnoc(ls[1..], l);
    } else {
      assert (ls + [l])[1..] == [];
    }
  }

  lemma {:induction false} StripCrAllNoCr(ls: seq<string>)
    requires forall i :: 0 <= i < |ls| ==> !(|ls[i]| > 0 && ls[i][|ls[i]| - 1] == '\r')
    ensures StripCrAll(ls) == ls
  {
    if |ls| > 0 { StripCrAllNoCr(ls[1..]); }
  }

  /** Reading back written lines gives the lines, when no line holds a
      newline or ends with a carriage return. */
  lemma {:induction false} LinesUnlines(ls: seq<string>)
    requires forall i :: 0 <= i < |ls| ==> '\n' !in ls[i]
    requires forall i :: 0 <= i < |ls| ==> !(|ls[i]| > 0 && ls[i][|ls[i]| - 1] == '\r')
    ensures Lines(Unlines(ls)) == ls
  {
    UnlinesAsJoin(ls);
    var parts := ls + [[]];
    assert forall i :: 0 <= i < |parts| ==> '\n' !in parts[i] by {
      forall i | 0 <= i < |parts| ensures '\n' !in parts[i] {
        if i < |ls| { assert parts[i] == ls[i]; } else { assert parts[i] == []; }
      }
    }
    SplitJoin(parts, '\n');
    assert parts[..|parts| - 1] == ls;
    StripCrAllNoCr(ls);
  }
}
