/** The string operations the FlowScript lexer borrows from JavaScript:
    String.prototype.trim, a RegExp test for a fixed substring,
    split("//")[0], split("\n"), and the decimal rendering of a number
    inside a template literal. */
module Text {

  // ---------------------------------------------------------------------
  // Character classes
  // ---------------------------------------------------------------------

  /** The characters String.prototype.trim removes: ECMAScript WhiteSpace
      (tab, vertical tab, form feed, the Zs space separators, BOM) and
      LineTerminator (LF, CR, LS, PS). */
  predicate IsSpace(c: char) {
    || c == '\t' || c == '\n' || c == '\r' || c == '\U{000B}' || c == '\U{000C}'
    || c == ' ' || c == '\U{00A0}' || c == '\U{1680}'
    || ('\U{2000}' <= c <= '\U{200A}')
    || c == '\U{2028}' || c == '\U{2029}' || c == '\U{202F}' || c == '\U{205F}'
    || c == '\U{3000}' || c == '\U{FEFF}'
  }

  predicate IsDigit(c: char) { '0' <= c <= '9' }

  predicate IsLetter(c: char) { ('A' <= c <= 'Z') || ('a' <= c <= 'z') }

  /** The regular-expression class \w: ASCII letters, digits and underscore. */
  predicate IsWordChar(c: char) { IsLetter(c) || IsDigit(c) || c == '_' }

  predicate AllDigits(s: string) {
    forall i :: 0 <= i < |s| ==> IsDigit(s[i])
  }

  // ---------------------------------------------------------------------
  // Substring search, as /\*\//.test(s) and friends
  // ---------------------------------------------------------------------

  predicate OccursAt(s: string, p: string, i: nat) {
    i + |p| <= |s| && s[i..i + |p|] == p
  }

  /** The test `/p/.test(s)` for a pattern that is a fixed string. */
  predicate Contains(s: string, p: string) {
    exists i: nat | i <= |s| :: OccursAt(s, p, i)
  }

  /** A fixed string found inside a part of s is found inside s. */
  lemma ContainsInInfix(s: string, lo: nat, hi: nat, p: string)
    requires lo <= hi <= |s|
    requires Contains(s[lo..hi], p)
    ensures Contains(s, p)
  {
    var i: nat :| i <= hi - lo && OccursAt(s[lo..hi], p, i);
    assert forall k :: 0 <= k < |p| ==> s[lo + i + k] == s[lo..hi][i + k] == p[k];
    assert s[lo + i..lo + i + |p|] == p;
    assert OccursAt(s, p, lo + i);
  }

  // ---------------------------------------------------------------------
  // String.prototype.trim
  // ---------------------------------------------------------------------

  predicate Blank(s: string) {
    forall i :: 0 <= i < |s| ==> IsSpace(s[i])
  }

  /** Whitespace cut from the front: what is left is a suffix of s that
      does not start with whitespace. */
  function TrimStart(s: string): (r: string)
    ensures |r| <= |s| && r == s[|s| - |r|..]
    ensures r == [] || !IsSpace(r[0])
    decreases |s|
  {
    if s != [] && IsSpace(s[0]) then TrimStart(s[1..]) else s
  }

  /** Only whitespace is cut from the front. */
  lemma {:induction false} TrimStartCutsSpace(s: string)
    ensures Blank(s[..|s| - |TrimStart(s)|])
    decreases |s|
  {
    if s != [] && IsSpace(s[0]) {
      TrimStartCutsSpace(s[1..]);
      var k := |s| - |TrimStart(s)|;
      assert forall i :: 1 <= i < k ==> s[i] == s[1..][..k - 1][i - 1];
    }
  }

  /** Whitespace cut from the back: what is left is a prefix of s that
      does not end with whitespace. */
  function TrimEnd(s: string): (r: string)
    ensures |r| <= |s| && r == s[..|r|]
    ensures r == [] || !IsSpace(r[|r| - 1])
    decreases |s|
  {
    if s != [] && IsSpace(s[|s| - 1]) then TrimEnd(s[..|s| - 1]) else s
  }

  /** Only whitespace is cut from the back. */
  lemma {:induction false} TrimEndCutsSpace(s: string)
    ensures Blank(s[|TrimEnd(s)|..])
    decreases |s|
  {
    if s != [] && IsSpace(s[|s| - 1]) {
      var s' := s[..|s| - 1];
      TrimEndCutsSpace(s');
      var k := |TrimEnd(s)|;
      assert forall i :: k <= i < |s| - 1 ==> s[i] == s'[k..][i - k];
      assert s[k..][|s| - 1 - k] == s[|s| - 1];
    }
  }

  /** Where the trimmed text starts in s. */
  function TrimOffset(s: string): nat {
    |s| - |TrimStart(s)|
  }

  /** `s.trim()`: the part of s that starts at TrimOffset(s); when it is
      not empty it neither starts nor ends with whitespace. */
  function Trim(s: string): (r: string)
    ensures TrimOffset(s) + |r| <= |s| && r == s[TrimOffset(s)..TrimOffset(s) + |r|]
    ensures r != [] ==> !IsSpace(r[0]) && !IsSpace(r[|r| - 1])
  {
    var t := TrimStart(s);
    var r := TrimEnd(t);
    var lo := |s| - |t|;
    assert r == s[lo..lo + |r|];
    r
  }

  /** Only whitespace was cut from either end of s, so s is blank exactly
      when its trimmed form is empty. */
  lemma TrimCutsSpace(s: string)
    ensures Blank(s[..TrimOffset(s)]) && Blank(s[TrimOffset(s) + |Trim(s)|..])
    ensures Trim(s) == [] <==> Blank(s)
  {
    var t := TrimStart(s);
    var lo := TrimOffset(s);
    var r := Trim(s);
    TrimStartCutsSpace(s);
    TrimEndCutsSpace(t);
    assert t[|r|..] == s[lo + |r|..];
    if r == [] {
      assert s == s[..lo] + s[lo..];
      BlankAppend(s[..lo], s[lo..]);
    }
    assert r != [] ==> r[0] == s[lo];
  }

  /** A character that is not whitespace lies inside the trimmed part. */
  lemma TrimKeeps(s: string, i: nat)
    requires i < |s| && !IsSpace(s[i])
    ensures TrimOffset(s) <= i < TrimOffset(s) + |Trim(s)|
  {
    var lo := TrimOffset(s);
    var hi := lo + |Trim(s)|;
    TrimCutsSpace(s);
    assert forall j :: 0 <= j < lo ==> IsSpace(s[j]) by {
      forall j | 0 <= j < lo ensures IsSpace(s[j]) {
        assert s[..lo][j] == s[j];
      }
    }
    assert forall j :: hi <= j < |s| ==> IsSpace(s[j]) by {
      forall j | hi <= j < |s| ensures IsSpace(s[j]) {
        assert s[hi..][j - hi] == s[j];
      }
    }
  }

  lemma BlankAppend(a: string, b: string)
    requires Blank(a) && Blank(b)
    ensures Blank(a + b)
  {
    assert forall i :: |a| <= i < |a + b| ==> (a + b)[i] == b[i - |a|];
  }

  /** Anything found in the trimmed string is found in the string. */
  lemma ContainsTrimmed(s: string, p: string)
    requires Contains(Trim(s), p)
    ensures Contains(s, p)
  {
    var r := Trim(s);
    ContainsInInfix(s, TrimOffset(s), TrimOffset(s) + |r|, p);
  }

  // ---------------------------------------------------------------------
  // s.split(sep)[0]
  // ---------------------------------------------------------------------

  /** The first piece of `s.split(sep)`: everything before the first
      occurrence of sep, or all of s when sep does not occur. */
  function SplitHead(s: string, sep: string): (r: string)
    requires sep != []
    ensures |r| <= |s| && r == s[..|r|]
    ensures r == s || OccursAt(s, sep, |r|)
    decreases |s|
  {
    if |s| < |sep| then s
    else if s[..|sep|] == sep then []
    else [s[0]] + SplitHead(s[1..], sep)
  }

  /** split(sep)[0] cuts at the FIRST occurrence: sep starts at no position
      before the cut (which, for a separator that overlaps itself such as
      "//", says more than "the head holds no sep"); the head never contains
      sep; and it is all of s exactly when sep does not occur in s. */
  lemma SplitHeadIsBeforeFirst(s: string, sep: string)
    requires sep != []
    ensures forall j :: 0 <= j < |SplitHead(s, sep)| ==> !OccursAt(s, sep, j)
    ensures !Contains(SplitHead(s, sep), sep)
    ensures SplitHead(s, sep) == s <==> !Contains(s, sep)
  {
    forall j | 0 <= j < |SplitHead(s, sep)| ensures !OccursAt(s, sep, j) {
      SplitHeadFirst(s, sep, j);
    }
    SplitHeadHasNoSeparator(s, sep);
    SplitHeadWhole(s, sep);
  }

  lemma {:induction false} SplitHeadFirst(s: string, sep: string, j: nat)
    requires sep != [] && j < |SplitHead(s, sep)|
    ensures !OccursAt(s, sep, j)
    decreases |s|
  {
    if |s| >= |sep| && s[..|sep|] != sep && j > 0 {
      SplitHeadFirst(s[1..], sep, j - 1);
      ShiftOccurs(s[0], s[1..], sep, j);
      assert s == [s[0]] + s[1..];
    }
  }

  lemma {:induction false} SplitHeadHasNoSeparator(s: string, sep: string)
    requires sep != []
    ensures !Contains(SplitHead(s, sep), sep)
    decreases |s|
  {
    var r := SplitHead(s, sep);
    if |s| >= |sep| && s[..|sep|] != sep {
      var r' := SplitHead(s[1..], sep);
      SplitHeadHasNoSeparator(s[1..], sep);
      assert r == [s[0]] + r';
      forall i: nat | i <= |r| ensures !OccursAt(r, sep, i) {
        if i == 0 {
          if |sep| <= |r| {
            assert r[..|sep|] == s[..|sep|];
          }
        } else {
          ShiftOccurs(s[0], r', sep, i);
        }
      }
    }
  }

  lemma {:induction false} SplitHeadWhole(s: string, sep: string)
    requires sep != []
    ensures SplitHead(s, sep) == s <==> !Contains(s, sep)
    decreases |s|
  {
    var r := SplitHead(s, sep);
    if |s| < |sep| {
    } else if s[..|sep|] == sep {
      assert OccursAt(s, sep, 0);
    } else {
      var r' := SplitHead(s[1..], sep);
      SplitHeadWhole(s[1..], sep);
      assert r == [s[0]] + r';
      if r == s {
        assert s == [s[0]] + r';
        forall i: nat | i <= |s| ensures !OccursAt(s, sep, i) {
          if i > 0 {
            ShiftOccurs(s[0], r', sep, i);
          }
        }
      } else {
        assert OccursAt(s, sep, |r|);
      }
    }
  }

  /** Occurrences past the first character are occurrences in the rest. */
  lemma ShiftOccurs(c: char, t: string, p: string, i: nat)
    requires i >= 1
    ensures OccursAt([c] + t, p, i) <==> OccursAt(t, p, i - 1)
  {
    if i + |p| <= |[c] + t| {
      assert ([c] + t)[i..i + |p|] == t[i - 1..i - 1 + |p|];
    }
  }

  // ---------------------------------------------------------------------
  // s.split("\n") and its inverse, lines.join("\n")
  // ---------------------------------------------------------------------

  function IndexOf(s: string, c: char): (i: nat)
    requires c in s
    ensures i < |s| && s[i] == c && c !in s[..i]
  {
    if s[0] == c then 0 else 1 + IndexOf(s[1..], c)
  }

  /** `s.split("\n")`: always at least one piece, no piece holds a line
      feed. */
  function SplitLines(s: string): (lines: seq<string>)
    ensures |lines| >= 1
    ensures forall k :: 0 <= k < |lines| ==> '\n' !in lines[k]
    decreases |s|
  {
    if '\n' !in s then [s]
    else
      var i := IndexOf(s, '\n');
      [s[..i]] + SplitLines(s[i + 1..])
  }

  function JoinLines(lines: seq<string>): string
    requires |lines| >= 1
  {
    if |lines| == 1 then lines[0] else lines[0] + "\n" + JoinLines(lines[1..])
  }

  /** Splitting loses nothing: joining the pieces with line feeds gives
      back the text. */
  lemma {:induction false} JoinSplitLines(s: string)
    ensures JoinLines(SplitLines(s)) == s
    decreases |s|
  {
    if '\n' in s {
      var i := IndexOf(s, '\n');
      JoinSplitLines(s[i + 1..]);
      assert SplitLines(s)[1..] == SplitLines(s[i + 1..]);
      assert s == s[..i] + "\n" + s[i + 1..];
    }
  }

  /** Splitting is the inverse of joining lines that hold no line feed. */
  lemma {:induction false} SplitJoinLines(lines: seq<string>)
    requires |lines| >= 1
    requires forall k :: 0 <= k < |lines| ==> '\n' !in lines[k]
    ensures SplitLines(JoinLines(lines)) == lines
  {
    if |lines| > 1 {
      SplitJoinLines(lines[1..]);
      SplitAtFirstLine(lines[0], JoinLines(lines[1..]));
      assert lines == [lines[0]] + lines[1..];
    }
  }

  /** A text made of a line feed-free line, a line feed and a rest splits
      into that line and the pieces of the rest. */
  lemma SplitAtFirstLine(a: string, b: string)
    requires '\n' !in a
    ensures SplitLines(a + "\n" + b) == [a] + SplitLines(b)
  {
    var s := a + "\n" + b;
    assert s[|a|] == '\n';
    assert s[..|a|] == a;
    IndexOfFirst(s, '\n', |a|);
    assert s[|a| + 1..] == b;
  }

  lemma IndexOfFirst(s: string, c: char, k: nat)
    requires k < |s| && s[k] == c && c !in s[..k]
    ensures IndexOf(s, c) == k
  {
    var i := IndexOf(s, c);
    assert forall j :: 0 <= j < k ==> s[j] != c by {
      forall j | 0 <= j < k ensures s[j] != c {
        assert s[..k][j] == s[j];
      }
    }
    assert forall j :: 0 <= j < i ==> s[j] != c by {
      forall j | 0 <= j < i ensures s[j] != c {
        assert s[..i][j] == s[j];
      }
    }
  }

  // ---------------------------------------------------------------------
  // Decimal rendering of numbers, as `${n}` in a template literal
  // ---------------------------------------------------------------------

  function DigitChar(d: nat): (c: char)
    requires d < 10
    ensures IsDigit(c)
  {
    (48 + d) as char
  }

  function DigitValue(c: char): nat
    requires IsDigit(c)
  {
    c as int - 48
  }

  /** The decimal numeral of n: digits only, no leading zero. */
  function NatToString(n: nat): (s: string)
    ensures |s| >= 1 && AllDigits(s)
    ensures s[0] == '0' ==> n == 0
    decreases n
  {
    if n < 10 then [DigitChar(n)] else NatToString(n / 10) + [DigitChar(n % 10)]
  }

  /** The value of a numeral, read from its last digit backwards. */
  function DecimalValue(s: string): nat
    requires AllDigits(s)
  {
    if s == [] then 0 else DecimalValue(s[..|s| - 1]) * 10 + DigitValue(s[|s| - 1])
  }

  /** Reading back a rendered number gives the number. */
  lemma {:induction false} DecimalRoundTrip(n: nat)
    ensures DecimalValue(NatToString(n)) == n
    decreases n
  {
    var s := NatToString(n);
    if n >= 10 {
      DecimalRoundTrip(n / 10);
      assert s[..|s| - 1] == NatToString(n / 10);
    }
  }

  /** Different numbers render differently. */
  lemma NatToStringInjective(m: nat, n: nat)
    requires NatToString(m) == NatToString(n)
    ensures m == n
  {
    DecimalRoundTrip(m);
    DecimalRoundTrip(n);
  }
}
