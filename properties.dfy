/** What one call of the lexer promises about its three outputs, stated
    about Run (and so, through the postcondition of ParseFlowScript, about
    the method): which lines are skipped, which line every token comes
    from, when a line is reported as an error and what its summary says,
    and how identifiers are numbered across the whole text. */
module LexerProperties {
  import opened Text
  import opened Scanner
  import opened Classifier
  import opened Lexer

  // ---------------------------------------------------------------------
  // The comment filter, stated on the raw line
  // ---------------------------------------------------------------------

  /** The first non-blank characters of the line are the line-comment
      marker. */
  predicate StartsWithLineComment(line: string) {
    OccursAt(Trim(line), "//", 0)
  }

  /** A marker with no whitespace in it occurs in a line exactly when it
      occurs in the trimmed line. */
  lemma ContainsIffTrimmed(s: string, p: string)
    requires p != [] && forall k :: 0 <= k < |p| ==> !IsSpace(p[k])
    ensures Contains(Trim(s), p) <==> Contains(s, p)
  {
    if Contains(Trim(s), p) {
      ContainsTrimmed(s, p);
    }
    if Contains(s, p) {
      var i: nat :| i <= |s| && OccursAt(s, p, i);
      TrimmedOccurrence(s, p, i);
    }
  }

  /** An occurrence in s of a marker with no whitespace in it lies inside
      the trimmed part of s. */
  lemma TrimmedOccurrence(s: string, p: string, i: nat)
    requires p != [] && forall k :: 0 <= k < |p| ==> !IsSpace(p[k])
    requires OccursAt(s, p, i)
    ensures Contains(Trim(s), p)
  {
    OccurrenceChars(s, p, i);
    TrimKeeps(s, i);
    TrimKeeps(s, i + |p| - 1);
    TrimIsInfix(s);
    OccursInInfix(s, Trim(s), TrimOffset(s), p, i);
  }

  lemma OccurrenceChars(s: string, p: string, i: nat)
    requires OccursAt(s, p, i)
    ensures forall k :: 0 <= k < |p| ==> s[i + k] == p[k]
  {
    forall k | 0 <= k < |p| ensures s[i + k] == p[k] {
      assert p[k] == s[i..i + |p|][k];
    }
  }

  /** An occurrence in s that lies inside a piece r of s is an occurrence
      in r. */
  lemma OccursInInfix(s: string, r: string, off: nat, p: string, i: nat)
    requires off + |r| <= |s| && r == s[off..off + |r|]
    requires OccursAt(s, p, i) && off <= i && i + |p| <= off + |r|
    ensures Contains(r, p)
  {
    OccurrenceChars(s, p, i);
    forall k | 0 <= k < |p| ensures r[i - off + k] == p[k] {
      assert r[i - off + k] == s[i + k];
    }
    assert r[i - off..i - off + |p|] == p;
    assert OccursAt(r, p, i - off);
  }

  /** A line keeps some code exactly when the lexer is outside a block
      comment, the line holds no open marker, it is not blank, and it does
      not start with a line comment. */
  lemma KeptLines(inComment: bool, line: string)
    ensures FilterComments(inComment, line).Keep?
        <==> !inComment && !Contains(line, "/*") && !Blank(line) && !StartsWithLineComment(line)
  {
    ContainsIffTrimmed(line, "/*");
    TrimCutsSpace(line);
    var t := Trim(line);
    if t != [] {
      CutIsEmpty(t);
    }
  }

  /** For a trimmed, non-empty line, cutting at the first line-comment
      marker leaves nothing exactly when the line starts with one. */
  lemma CutIsEmpty(t: string)
    requires t != [] && !IsSpace(t[0])
    ensures OccursAt(t, "//", 0) ==> Contains(t, "//")
    ensures Contains(t, "//") ==> (Trim(SplitHead(t, "//")) == [] <==> OccursAt(t, "//", 0))
  {
    var h := SplitHead(t, "//");
    if OccursAt(t, "//", 0) {
      assert t[..2] == "//";
      assert h == [];
    } else {
      assert h != [] && h[0] == t[0];
      TrimKeeps(h, 0);
    }
  }

  /** The lines the lexer skips leave the tokens, the summaries, the
      errors and the registry as they were; only the block comment flag
      can change: a blank line, every line inside a block comment (the one
      that closes it included, which ends the comment), a line holding an
      open marker anywhere (which starts a comment even if it also closes
      it), and a line that is only a line comment. */
  lemma {:induction false} SkippedLines(st: LexState, line: string, n: nat)
    ensures Blank(line) ==> Step(st, line, n) == st
    ensures st.inComment ==> Step(st, line, n) == st.(inComment := !Contains(line, "*/"))
    ensures !st.inComment && Contains(line, "/*") ==> Step(st, line, n) == st.(inComment := true)
    ensures !st.inComment && !Contains(line, "/*") && StartsWithLineComment(line) ==> Step(st, line, n) == st
  {
    ContainsIffTrimmed(line, "/*");
    ContainsIffTrimmed(line, "*/");
    TrimCutsSpace(line);
    var t := Trim(line);
    if t != [] && StartsWithLineComment(line) {
      assert t[..2] == "//";
      assert OccursAt(t, "//", 0);
      assert SplitHead(t, "//") == [];
    }
  }

  /** Where the kept code sits in the trimmed line. */
  lemma CodeInside(inComment: bool, line: string) returns (lo: nat, hi: nat)
    requires FilterComments(inComment, line).Keep?
    ensures lo <= hi <= |Trim(line)| && FilterComments(inComment, line).code == Trim(line)[lo..hi]
  {
    var t := Trim(line);
    lo, hi := 0, |t|;
    if Contains(t, "//") {
      var h := SplitHead(t, "//");
      assert FilterComments(inComment, line).code == Trim(h);
      lo, hi := TrimOffset(h), TrimOffset(h) + |Trim(h)|;
      InfixOfPrefix(t, h, lo, hi);
    } else {
      assert FilterComments(inComment, line).code == t;
    }
  }

  lemma InfixOfPrefix(t: string, h: string, lo: nat, hi: nat)
    requires |h| <= |t| && h == t[..|h|] && lo <= hi <= |h|
    ensures h[lo..hi] == t[lo..hi]
  {
  }

  /** The code kept from a line is not empty, carries no surrounding
      whitespace and no comment marker, and is a piece of the line; for a
      line without a line comment it is the whole trimmed line. */
  lemma KeptCode(inComment: bool, line: string)
    requires FilterComments(inComment, line).Keep?
    ensures var code := FilterComments(inComment, line).code;
      && code != [] && !IsSpace(code[0]) && !IsSpace(code[|code| - 1])
      && !Contains(code, "//") && !Contains(code, "/*")
      && Contains(line, code)
      && (!Contains(line, "//") ==> code == Trim(line))
  {
    KeptCodeTrimmed(inComment, line);
    KeptCodeNoMarkers(inComment, line);
    KeptCodeInLine(inComment, line);
  }

  /** For a line that holds `//`, the kept code is the trimmed text before
      the first `//` of the trimmed line, itself trimmed. */
  lemma KeptCodeCut(inComment: bool, line: string)
    requires FilterComments(inComment, line).Keep? && Contains(line, "//")
    ensures var t := Trim(line);
      exists p :: 0 < p < |t| && OccursAt(t, "//", p)
        && (forall j :: 0 <= j < p ==> !OccursAt(t, "//", j))
        && FilterComments(inComment, line).code == Trim(t[..p])
  {
    var t := Trim(line);
    ContainsIffTrimmed(line, "//");
    SplitHeadIsBeforeFirst(t, "//");
    var h := SplitHead(t, "//");
    var p := |h|;
    assert OccursAt(t, "//", p);
    assert h == t[..p];
    assert FilterComments(inComment, line).code == Trim(h);
    assert p != 0;
  }

  lemma KeptCodeTrimmed(inComment: bool, line: string)
    requires FilterComments(inComment, line).Keep?
    ensures var code := FilterComments(inComment, line).code;
      && code != [] && !IsSpace(code[0]) && !IsSpace(code[|code| - 1])
      && (!Contains(line, "//") ==> code == Trim(line))
  {
    var t := Trim(line);
    if Contains(t, "//") {
      assert FilterComments(inComment, line).code == Trim(SplitHead(t, "//"));
    } else {
      assert FilterComments(inComment, line).code == t;
    }
    ContainsIffTrimmed(line, "//");
  }

  lemma KeptCodeNoMarkers(inComment: bool, line: string)
    requires FilterComments(inComment, line).Keep?
    ensures var code := FilterComments(inComment, line).code;
      !Contains(code, "//") && !Contains(code, "/*")
  {
    var t := Trim(line);
    var code := FilterComments(inComment, line).code;
    if Contains(t, "//") {
      var h := SplitHead(t, "//");
      assert code == Trim(h);
      SplitHeadIsBeforeFirst(t, "//");
      if Contains(code, "//") {
        ContainsTrimmed(h, "//");
      }
    }
    var lo, hi := CodeInside(inComment, line);
    if Contains(code, "/*") {
      ContainsInInfix(t, lo, hi, "/*");
    }
  }

  lemma KeptCodeInLine(inComment: bool, line: string)
    requires FilterComments(inComment, line).Keep?
    ensures Contains(line, FilterComments(inComment, line).code)
  {
    var lo, hi := CodeInside(inComment, line);
    PieceOfTrimmed(line, FilterComments(inComment, line).code, lo, hi);
  }

  /** A piece of the trimmed line is a piece of the line. */
  lemma PieceOfTrimmed(line: string, u: string, lo: nat, hi: nat)
    requires lo <= hi <= |Trim(line)| && u == Trim(line)[lo..hi]
    ensures Contains(line, u)
  {
    TrimIsInfix(line);
    InfixOfInfix(line, Trim(line), u, TrimOffset(line), lo, hi);
  }

  lemma TrimIsInfix(s: string)
    ensures TrimOffset(s) + |Trim(s)| <= |s| && Trim(s) == s[TrimOffset(s)..TrimOffset(s) + |Trim(s)|]
  {
  }

  /** A piece of a piece of s is a piece of s. */
  lemma InfixOfInfix(s: string, t: string, u: string, off: nat, lo: nat, hi: nat)
    requires off + |t| <= |s| && t == s[off..off + |t|]
    requires lo <= hi <= |t| && u == t[lo..hi]
    ensures Contains(s, u)
  {
    assert forall k :: 0 <= k < hi - lo ==> u[k] == t[lo + k] == s[off + lo + k];
    assert u == s[off + lo..off + hi];
    assert OccursAt(s, u, off + lo);
  }

  // ---------------------------------------------------------------------
  // Selecting the tokens of one line
  // ---------------------------------------------------------------------

  lemma {:induction false} OnLineAppend(a: seq<Token>, b: seq<Token>, n: nat)
    ensures OnLine(a + b, n) == OnLine(a, n) + OnLine(b, n)
    decreases |b|
  {
    if b == [] {
      assert a + b == a;
    } else {
      var b0 := b[..|b| - 1];
      OnLineAppend(a, b0, n);
      assert (a + b)[..|a + b| - 1] == a + b0;
    }
  }

  lemma {:induction false} OnLineNone(a: seq<Token>, n: nat)
    requires forall t :: t in a ==> t.lineNumber != n
    ensures OnLine(a, n) == []
    decreases |a|
  {
    if a != [] {
      OnLineNone(a[..|a| - 1], n);
    }
  }

  lemma {:induction false} OnLineAll(b: seq<Token>, n: nat)
    requires forall t :: t in b ==> t.lineNumber == n
    ensures OnLine(b, n) == b
    decreases |b|
  {
    if b != [] {
      OnLineAll(b[..|b| - 1], n);
    }
  }

  // ---------------------------------------------------------------------
  // The summary text
  // ---------------------------------------------------------------------

  /** The pairs of a summary, written front to back. */
  function Pairs(tokens: seq<Token>): string {
    if tokens == [] then "" else PairText(tokens[0]) + Pairs(tokens[1..])
  }

  lemma {:induction false} PairsSnoc(tokens: seq<Token>, t: Token)
    ensures Pairs(tokens + [t]) == Pairs(tokens) + PairText(t)
    decreases |tokens|
  {
    if tokens == [] {
      assert [] + [t] == [t];
    } else {
      PairsSnoc(tokens[1..], t);
      var head, rest := PairText(tokens[0]), Pairs(tokens[1..]);
      assert (tokens + [t])[0] == tokens[0];
      assert (tokens + [t])[1..] == tokens[1..] + [t];
      assert Pairs(tokens + [t]) == head + (rest + PairText(t));
      assert head + (rest + PairText(t)) == (head + rest) + PairText(t);
    }
  }

  /** A summary is "Line n" followed by " (classPart, valuePart)" for each
      token in order, and is just "Line n" for a line without tokens. */
  lemma {:induction false} SummaryFormat(n: nat, tokens: seq<Token>)
    ensures Summary(n, tokens) == "Line " + NatToString(n) + Pairs(tokens)
    decreases |tokens|
  {
    var head := "Line " + NatToString(n);
    if tokens == [] {
      assert Pairs(tokens) == [];
      assert head + [] == head;
    } else {
      var init := tokens[..|tokens| - 1];
      var last := tokens[|tokens| - 1];
      assert init + [last] == tokens;
      SummaryFormat(n, init);
      PairsSnoc(init, last);
      assert Summary(n, tokens) == Summary(n, init) + PairText(last);
      assert Summary(n, tokens) == (head + Pairs(init)) + PairText(last);
      assert (head + Pairs(init)) + PairText(last) == head + (Pairs(init) + PairText(last));
    }
  }

  // ---------------------------------------------------------------------
  // One kept line
  // ---------------------------------------------------------------------

  /** Processing a line only appends to the tokens, and every token it
      appends carries the line's number. */
  lemma StepAppendsLine(st: LexState, line: string, n: nat)
    ensures var st' := Step(st, line, n);
      && |st.results| <= |st'.results| && st'.results[..|st.results|] == st.results
      && forall k :: |st.results| <= k < |st'.results| ==> st'.results[k].lineNumber == n
  {
    var f := FilterComments(st.inComment, line);
    if f.Keep? {
      var lr := ClassifyAll(Scan(f.code), n, st.reg);
      ClassifyAllLineNumbers(Scan(f.code), n, st.reg);
      assert Emit(st, f.code, n).results == st.results + lr.tokens;
      AppendOnLine(st.results, lr.tokens, n);
    }
  }

  lemma AppendOnLine(a: seq<Token>, b: seq<Token>, n: nat)
    requires forall t :: t in b ==> t.lineNumber == n
    ensures |a| <= |a + b| && (a + b)[..|a|] == a
    ensures forall k :: |a| <= k < |a + b| ==> (a + b)[k].lineNumber == n
  {
    assert forall k :: |a| <= k < |a + b| ==> (a + b)[k] == b[k - |a|];
  }

  /** Line n once the comment filter has kept `code` (every earlier token
      being on an earlier line) contributes exactly one report: the error
      message when some lexeme fails every test, the summary of its own
      tokens otherwise. The tokens it adds are made from its recognized
      lexemes in order, on an error line as well. */
  lemma EmitReport(st: LexState, code: string, n: nat)
    requires LabelsOnly(st.reg)
    requires forall t :: t in st.results ==> t.lineNumber < n
    ensures var lexemes := Scan(code);
      var st' := Emit(st, code, n);
      && |st.results| <= |st'.results| && st'.results[..|st.results|] == st.results
      && LexemesOf(st'.results[|st.results|..]) == Recognized(lexemes)
      && (HasUnrecognized(lexemes) ==> st'.errors == st.errors + [ErrorMessage(n)] && st'.output == st.output)
      && (!HasUnrecognized(lexemes) ==>
            st'.errors == st.errors && st'.output == st.output + [Summary(n, st'.results[|st.results|..])])
      && !st'.inComment
  {
    var lexemes := Scan(code);
    var lr := ClassifyAll(lexemes, n, st.reg);
    var all := st.results + lr.tokens;
    assert Emit(st, code, n).results == all;
    assert all[|st.results|..] == lr.tokens;
    assert all[..|st.results|] == st.results;
    ClassifyAllError(lexemes, n, st.reg);
    ClassifyAllKeepsRecognized(lexemes, n, st.reg);
    ClassifyAllLineNumbers(lexemes, n, st.reg);
    OnLineAppend(st.results, lr.tokens, n);
    OnLineNone(st.results, n);
    OnLineAll(lr.tokens, n);
    assert OnLine(all, n) == lr.tokens;
  }

  /** The same for a raw line the comment filter keeps. */
  lemma KeptLineReport(st: LexState, line: string, n: nat)
    requires FilterComments(st.inComment, line).Keep?
    requires LabelsOnly(st.reg)
    requires forall t :: t in st.results ==> t.lineNumber < n
    ensures var lexemes := Scan(FilterComments(st.inComment, line).code);
      var st' := Step(st, line, n);
      && |st.results| <= |st'.results| && st'.results[..|st.results|] == st.results
      && LexemesOf(st'.results[|st.results|..]) == Recognized(lexemes)
      && (HasUnrecognized(lexemes) ==> st'.errors == st.errors + [ErrorMessage(n)] && st'.output == st.output)
      && (!HasUnrecognized(lexemes) ==>
            st'.errors == st.errors && st'.output == st.output + [Summary(n, st'.results[|st.results|..])])
      && !st'.inComment
  {
    var code := FilterComments(st.inComment, line).code;
    assert Step(st, line, n) == Emit(st, code, n);
    EmitReport(st, code, n);
  }

  // ---------------------------------------------------------------------
  // The whole run
  // ---------------------------------------------------------------------

  /** Tokens are in the order of their lines, each between 1 and m. */
  predicate LinesInOrder(results: seq<Token>, m: nat) {
    && (forall t :: t in results ==> 1 <= t.lineNumber <= m)
    && (forall i, j :: 0 <= i < j < |results| ==> results[i].lineNumber <= results[j].lineNumber)
  }

  /** After any number of lines, every token carries the 1-based number of
      a line read so far (skipped lines counted), the tokens are ordered
      by line, and the registry holds only id labels. */
  lemma {:induction false} RunLines(lines: seq<string>)
    ensures LinesInOrder(Run(lines).results, |lines|)
    ensures LabelsOnly(Run(lines).reg)
    decreases |lines|
  {
    if lines != [] {
      var init := lines[..|lines| - 1];
      var n := |lines|;
      var st := Run(init);
      RunLines(init);
      StepAppendsLine(st, lines[n - 1], n);
      var st' := Step(st, lines[n - 1], n);
      assert forall k :: 0 <= k < |st.results| ==> st'.results[k] == st.results[k];
      assert forall t :: t in st'.results ==> 1 <= t.lineNumber <= n by {
        forall t | t in st'.results ensures 1 <= t.lineNumber <= n {
          var k :| 0 <= k < |st'.results| && st'.results[k] == t;
          if k < |st.results| {
            assert st.results[k] in st.results;
          }
        }
      }
      forall i, j | 0 <= i < j < |st'.results| ensures st'.results[i].lineNumber <= st'.results[j].lineNumber {
        if j < |st.results| {
        } else if i < |st.results| {
          assert st.results[i] in st.results;
        }
      }
      var f := FilterComments(st.inComment, lines[n - 1]);
      if f.Keep? {
        ClassifyAllError(Scan(f.code), n, st.reg);
      }
    }
  }

  /** Line i+1 of a text is processed with every earlier token on an
      earlier line, so KeptLineReport applies to it. */
  lemma LineReport(lines: seq<string>, i: nat)
    requires i < |lines|
    requires FilterComments(Run(lines[..i]).inComment, lines[i]).Keep?
    ensures var st := Run(lines[..i]);
      var lexemes := Scan(FilterComments(st.inComment, lines[i]).code);
      var st' := Run(lines[..i + 1]);
      && |st.results| <= |st'.results| && st'.results[..|st.results|] == st.results
      && LexemesOf(st'.results[|st.results|..]) == Recognized(lexemes)
      && (HasUnrecognized(lexemes) ==> st'.errors == st.errors + [ErrorMessage(i + 1)] && st'.output == st.output)
      && (!HasUnrecognized(lexemes) ==>
            st'.errors == st.errors && st'.output == st.output + [Summary(i + 1, st'.results[|st.results|..])])
  {
    var st := Run(lines[..i]);
    assert lines[..i + 1][..i] == lines[..i];
    assert Run(lines[..i + 1]) == Step(st, lines[i], i + 1);
    RunLines(lines[..i]);
    KeptLineReport(st, lines[i], i + 1);
  }

  // ---------------------------------------------------------------------
  // Identifier numbering across lines
  // ---------------------------------------------------------------------

  lemma {:induction false} SpellingsAppend(a: seq<Token>, b: seq<Token>)
    ensures Spellings(a + b) == Spellings(a) + Spellings(b)
    decreases |b|
  {
    if b == [] {
      assert a + b == a;
    } else {
      SpellingsAppend(a, b[..|b| - 1]);
      assert (a + b)[..|a + b| - 1] == a + b[..|b| - 1];
    }
  }

  lemma {:induction false} AddNewAppend(names: seq<string>, a: seq<string>, b: seq<string>)
    ensures AddNew(AddNew(names, a), b) == AddNew(names, a + b)
    decreases |b|
  {
    if b == [] {
      assert a + b == a;
    } else {
      AddNewAppend(names, a, b[..|b| - 1]);
      assert (a + b)[..|a + b| - 1] == a + b[..|b| - 1];
    }
  }

  /** Across the whole text, the registry numbers the distinct identifier
      spellings in order of first occurrence (the k-th new spelling gets
      id<k>, the counter is one past the last), and every identifier token
      carries the label the registry holds for its spelling. */
  lemma {:induction false} RunNumbers(lines: seq<string>)
    ensures var st := Run(lines);
      && Numbers(st.reg, AddNew([], Spellings(st.results)))
      && Agrees(st.results, st.reg)
    decreases |lines|
  {
    if lines != [] {
      var init := lines[..|lines| - 1];
      var n := |lines|;
      var st := Run(init);
      RunNumbers(init);
      RunLines(init);
      var f := FilterComments(st.inComment, lines[n - 1]);
      if f.Keep? {
        var names := AddNew([], Spellings(st.results));
        var lexemes := Scan(f.code);
        var lr := ClassifyAll(lexemes, n, st.reg);
        ClassifyAllNumbers(lexemes, n, st.reg, names);
        ClassifyAllError(lexemes, n, st.reg);
        SpellingsAppend(st.results, lr.tokens);
        AddNewAppend([], Spellings(st.results), Spellings(lr.tokens));
        var all := st.results + lr.tokens;
        assert Run(lines).results == all;
        forall t | t in all && IsIdLabel(t.classPart)
          ensures t.valuePart in lr.reg.ids && lr.reg.ids[t.valuePart] == t.classPart
        {
          if t in st.results {
          } else {
            assert t in lr.tokens;
          }
        }
      }
    }
  }

  /** Identifier ids are consistent over the whole text: two identifier
      tokens carry the same id exactly when they have the same spelling. */
  lemma IdsConsistent(lines: seq<string>, t: Token, u: Token)
    requires t in Run(lines).results && IsIdLabel(t.classPart)
    requires u in Run(lines).results && IsIdLabel(u.classPart)
    ensures t.classPart == u.classPart <==> t.valuePart == u.valuePart
  {
    var st := Run(lines);
    RunNumbers(lines);
    if t.valuePart != u.valuePart {
      NumberedLabelsDistinct(st.reg, AddNew([], Spellings(st.results)), t.valuePart, u.valuePart);
    }
  }
}
