/** The segmentation step of the lexer: the global regular-expression
    match over one comment-free line (a word run, a single operator or
    punctuation character, a digit run, or a closed double-quoted string),
    written out as an explicit left-to-right scanner. At each position the
    first alternative that matches wins; the alternatives start with
    pairwise different characters, and the digit run can never win because
    the word run comes first and matches everything it would.
    Where nothing matches, the scan moves on by one character, so that
    character is dropped. */
module Scanner {
  import opened Text

  /** The single-character alternatives: operators and punctuation. */
  predicate IsSingle(c: char) {
    || c == '+' || c == '-' || c == '*' || c == '/' || c == '='
    || c == ';' || c == '(' || c == ')' || c == ',' || c == '<'
    || c == '>' || c == '!' || c == '{' || c == '}'
  }

  /** Length of the longest prefix of s made of word characters: the
      greedy `\w+`. */
  function WordRunLength(s: string): (k: nat)
    ensures k <= |s|
    ensures forall i :: 0 <= i < k ==> IsWordChar(s[i])
    ensures k == |s| || !IsWordChar(s[k])
  {
    if s == [] || !IsWordChar(s[0]) then 0 else 1 + WordRunLength(s[1..])
  }

  // The three shapes a lexeme can have.

  predicate IsWordRun(l: string) {
    |l| > 0 && forall i :: 0 <= i < |l| ==> IsWordChar(l[i])
  }

  predicate IsSingleLexeme(l: string) {
    |l| == 1 && IsSingle(l[0])
  }

  /** A quoted string: a double quote, anything but a double quote, a
      double quote. */
  predicate IsQuoted(l: string) {
    |l| >= 2 && l[0] == '"' && l[|l| - 1] == '"' && '"' !in l[1..|l| - 1]
  }

  predicate IsLexeme(l: string) {
    IsWordRun(l) || IsSingleLexeme(l) || IsQuoted(l)
  }

  /** The global match over the line (no match giving no lexemes): the
      lexemes of s, left to right. Every lexeme has one of the three
      shapes. */
  function Scan(s: string): (lexemes: seq<string>)
    ensures forall k :: 0 <= k < |lexemes| ==> IsLexeme(lexemes[k])
    decreases |s|
  {
    if s == [] then []
    else if IsWordChar(s[0]) then
      var k := WordRunLength(s);
      [s[..k]] + Scan(s[k..])
    else if IsSingle(s[0]) then
      [s[..1]] + Scan(s[1..])
    else if s[0] == '"' && '"' in s[1..] then
      var k := IndexOf(s[1..], '"') + 2;
      assert s[1..k - 1] == s[1..][..k - 2];
      [s[..k]] + Scan(s[k..])
    else
      Scan(s[1..])
  }

  // ---------------------------------------------------------------------
  // What the scan keeps and what it drops
  // ---------------------------------------------------------------------

  /** The lexemes written one after the other. */
  function Flatten(lexemes: seq<string>): string {
    if lexemes == [] then [] else lexemes[0] + Flatten(lexemes[1..])
  }

  /** Some alternative matches at the start of s. */
  predicate StartsLexeme(s: string) {
    s != [] && (IsWordChar(s[0]) || IsSingle(s[0]) || (s[0] == '"' && '"' in s[1..]))
  }

  /** Where some alternative matches at the start of s, the scan takes a
      first lexeme of length k and goes on after it. */
  lemma ScanHead(s: string) returns (k: nat)
    requires StartsLexeme(s)
    ensures 0 < k <= |s| && Scan(s) == [s[..k]] + Scan(s[k..])
    ensures Flatten(Scan(s)) == s[..k] + Flatten(Scan(s[k..]))
  {
    k := if IsWordChar(s[0]) then WordRunLength(s)
         else if IsSingle(s[0]) then 1
         else IndexOf(s[1..], '"') + 2;
    assert ([s[..k]] + Scan(s[k..]))[1..] == Scan(s[k..]);
  }

  /** Where no alternative matches, the scan moves on by one character. */
  lemma ScanSkips(s: string)
    requires s != [] && !StartsLexeme(s)
    ensures Scan(s) == Scan(s[1..])
  {
  }

  /** a can be obtained from b by deleting characters. */
  predicate IsSubsequence(a: string, b: string)
    decreases |b|
  {
    a == [] || (b != [] && ((a[0] == b[0] && IsSubsequence(a[1..], b[1..])) || IsSubsequence(a, b[1..])))
  }

  lemma {:induction false} SubsequenceOfCommonPrefix(w: string, a: string, b: string)
    requires IsSubsequence(a, b)
    ensures IsSubsequence(w + a, w + b)
    decreases |w|
  {
    if w != [] {
      SubsequenceOfCommonPrefix(w[1..], a, b);
      assert (w + a)[1..] == w[1..] + a;
      assert (w + b)[1..] == w[1..] + b;
    } else {
      assert w + a == a && w + b == b;
    }
  }

  /** The scan never invents or reorders characters: the lexemes, written
      one after the other, are the line with some characters deleted. */
  lemma {:induction false} ScanIsSubsequence(s: string)
    ensures IsSubsequence(Flatten(Scan(s)), s)
    decreases |s|
  {
    if s == [] {
    } else if StartsLexeme(s) {
      var k := ScanHead(s);
      ScanIsSubsequence(s[k..]);
      SubsequenceOfCommonPrefix(s[..k], Flatten(Scan(s[k..])), s[k..]);
      assert s == s[..k] + s[k..];
    } else {
      ScanSkips(s);
      ScanIsSubsequence(s[1..]);
    }
  }

  /** A character that the scan can never drop: a word character or an
      operator or punctuation character. */
  predicate IsSignificant(c: char) {
    IsWordChar(c) || IsSingle(c)
  }

  /** The significant characters of s, in order. */
  function Significant(s: string): string {
    if s == [] then [] else (if IsSignificant(s[0]) then [s[0]] else []) + Significant(s[1..])
  }

  lemma {:induction false} SignificantAppend(a: string, b: string)
    ensures Significant(a + b) == Significant(a) + Significant(b)
    decreases |a|
  {
    if a != [] {
      SignificantAppend(a[1..], b);
      assert (a + b)[1..] == a[1..] + b;
    } else {
      assert a + b == b;
    }
  }

  /** Only insignificant characters are dropped: every word, operator and
      punctuation character of the line survives the scan, in order
      (inside a lexeme of its own or inside a quoted string). */
  lemma {:induction false} ScanKeepsSignificant(s: string)
    ensures Significant(Flatten(Scan(s))) == Significant(s)
    decreases |s|
  {
    if s == [] {
    } else if StartsLexeme(s) {
      var k := ScanHead(s);
      ScanKeepsSignificant(s[k..]);
      SignificantAppend(s[..k], Flatten(Scan(s[k..])));
      SignificantAppend(s[..k], s[k..]);
      assert s == s[..k] + s[k..];
    } else {
      ScanSkips(s);
      ScanKeepsSignificant(s[1..]);
    }
  }

  /** A word run followed by a non-word character (or by nothing) is taken
      whole: the greedy word alternative never splits a run and never stops
      short of its end. */
  lemma ScanWordFirst(w: string, rest: string)
    requires IsWordRun(w) && (rest == [] || !IsWordChar(rest[0]))
    ensures Scan(w + rest) == [w] + Scan(rest)
  {
    var s := w + rest;
    assert s[0] == w[0];
    WordRunOf(w, rest);
    assert s[..|w|] == w;
    assert s[|w|..] == rest;
  }

  lemma WordRunOf(w: string, rest: string)
    requires IsWordRun(w) && (rest == [] || !IsWordChar(rest[0]))
    ensures WordRunLength(w + rest) == |w|
  {
    var s := w + rest;
    assert forall i :: 0 <= i < |w| ==> s[i] == w[i];
    if rest != [] {
      assert s[|w|] == rest[0];
    }
  }

  /** A closed quoted string is taken whole, up to its own closing quote
      and no further. */
  lemma ScanQuotedFirst(q: string, rest: string)
    requires IsQuoted(q)
    ensures Scan(q + rest) == [q] + Scan(rest)
  {
    var s := q + rest;
    var t := s[1..];
    assert s[0] == '"';
    assert t[|q| - 2] == q[|q| - 1];
    assert t[..|q| - 2] == q[1..|q| - 1];
    IndexOfFirst(t, '"', |q| - 2);
    assert s[..|q|] == q;
    assert s[|q|..] == rest;
  }

  /** An operator or punctuation character is a lexeme of its own. */
  lemma ScanSingleFirst(c: string, rest: string)
    requires IsSingleLexeme(c)
    ensures Scan(c + rest) == [c] + Scan(rest)
  {
    var s := c + rest;
    assert s[0] == c[0];
    assert s[..1] == c;
    assert s[1..] == rest;
  }

  /** A character that no alternative matches vanishes without trace. */
  lemma ScanDropsUnmatched(c: char, s: string)
    requires !IsWordChar(c) && !IsSingle(c) && c != '"'
    ensures Scan([c] + s) == Scan(s)
  {
    assert ([c] + s)[1..] == s;
  }

  /** A double quote with no closing quote after it vanishes too; it is not
      reported. */
  lemma ScanDropsUnclosedQuote(s: string)
    requires '"' !in s
    ensures Scan(['"'] + s) == Scan(s)
  {
    assert (['"'] + s)[1..] == s;
  }
}
