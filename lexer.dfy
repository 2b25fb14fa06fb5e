/** `parseFlowScript`: the whole lexer. The functions below give the
    meaning of one call line by line (comment filter, segmentation,
    classification, report); the method ParseFlowScript does the same work
    the way the lexer does it, with loops that push into `results`,
    `output` and `errors`, and is proved to compute what Run specifies. */
module Lexer {
  import opened Text
  import opened Keywords
  import opened Scanner
  import opened Classifier

  // ---------------------------------------------------------------------
  // Comment filter
  // ---------------------------------------------------------------------

  /** What the comment filter does with a line: drop it, giving the block
      comment flag to carry to the next line, or keep this much of it. */
  datatype Filtered = Discard(inComment: bool) | Keep(code: string)

  /** Trim the line; drop it if blank; inside a block comment drop it and
      leave the comment if it holds a close marker; otherwise drop it and
      enter a block comment if it holds an open marker; otherwise cut at the
      first line-comment marker, trim again, and drop it if nothing is
      left. */
  function FilterComments(inComment: bool, line: string): Filtered {
    var t := Trim(line);
    if t == [] then Discard(inComment)
    else if inComment then Discard(!Contains(t, "*/"))
    else if Contains(t, "/*") then Discard(true)
    else
      var code := if Contains(t, "//") then Trim(SplitHead(t, "//")) else t;
      if code == [] then Discard(false) else Keep(code)
  }

  // ---------------------------------------------------------------------
  // Reporting
  // ---------------------------------------------------------------------

  /** The message pushed to `errors` for a line in error. */
  function ErrorMessage(n: nat): string {
    "Error on Line " + NatToString(n) + ": Invalid syntax or unrecognized token."
  }

  /** The pair a summary shows for one token: its two parts in parentheses. */
  function PairText(t: Token): string {
    " (" + t.classPart + ", " + t.valuePart + ")"
  }

  /** The entries of `results` that carry line number n, in order. */
  function OnLine(results: seq<Token>, n: nat): seq<Token> {
    if results == [] then []
    else
      var last := results[|results| - 1];
      OnLine(results[..|results| - 1], n) + (if last.lineNumber == n then [last] else [])
  }

  /** The summary pushed to `output` for line n: "Line n" and one pair
      per token. */
  function Summary(n: nat, tokens: seq<Token>): string {
    if tokens == [] then "Line " + NatToString(n)
    else Summary(n, tokens[..|tokens| - 1]) + PairText(tokens[|tokens| - 1])
  }

  // ---------------------------------------------------------------------
  // The whole lexer, line by line
  // ---------------------------------------------------------------------

  /** Everything the lexer keeps between lines. */
  datatype LexState = LexState(results: seq<Token>, output: seq<string>, errors: seq<string>,
                               reg: Registry, inComment: bool)

  const Initial := LexState([], [], [], FreshRegistry, false)

  /** Line n once its code is known: classify its lexemes, then report
      the line as an error or summarise it. */
  function Emit(st: LexState, code: string, n: nat): LexState {
    var lr := ClassifyAll(Scan(code), n, st.reg);
    var results := st.results + lr.tokens;
    if lr.error then
      LexState(results, st.output, st.errors + [ErrorMessage(n)], lr.reg, false)
    else
      LexState(results, st.output + [Summary(n, OnLine(results, n))], st.errors, lr.reg, false)
  }

  /** One iteration of the outer forEach, for line number n. */
  function Step(st: LexState, line: string, n: nat): LexState {
    match FilterComments(st.inComment, line)
    case Discard(c) => st.(inComment := c)
    case Keep(code) => Emit(st, code, n)
  }

  /** The state after the given lines; the last one is line |lines|. */
  function Run(lines: seq<string>): LexState {
    if lines == [] then Initial
    else Step(Run(lines[..|lines| - 1]), lines[|lines| - 1], |lines|)
  }

  /** The outcome of parsing a whole text. */
  function Parse(inputCode: string): LexState {
    Run(SplitLines(inputCode))
  }

  /** The body of the inner forEach for one lexeme of line n: push its
      token, registering an identifier on first sight, or raise the line's
      error flag. */
  method ClassifyToken(token: string, n: nat, results0: seq<Token>, ids0: map<string, string>,
                       count0: nat, lineError0: bool)
    returns (results: seq<Token>, variableIdMap: map<string, string>, variableCount: nat, lineError: bool)
    ensures var lr := Absorb(LineResult([], Registry(ids0, count0), lineError0), token, n);
      && results == results0 + lr.tokens
      && Registry(variableIdMap, variableCount) == lr.reg
      && lineError == lr.error
  {
    results, variableIdMap, variableCount, lineError := results0, ids0, count0, lineError0;
    match KindOf(token) {
      case Reserved =>
        results := results + [Token(n, token, Category(token))];
      case Number =>
        results := results + [Token(n, "number", token)];
      case Str =>
        results := results + [Token(n, "string", token)];
      case Identifier =>
        if token !in variableIdMap {
          variableIdMap := variableIdMap[token := IdLabel(variableCount)];
          variableCount := variableCount + 1;
        }
        results := results + [Token(n, variableIdMap[token], token)];
      case Operator =>
        results := results + [Token(n, "operator", token)];
      case Semicolon =>
        results := results + [Token(n, "semicolon", token)];
      case Symbol =>
        results := results + [Token(n, "symbol", token)];
      case Unrecognized =>
        lineError := true;
    }
  }

  /** The inner forEach over the lexemes of line n: pushes a token for
      every lexeme some test accepts, registers identifiers, and raises the
      line's error flag for a lexeme no test accepts, without stopping. */
  method ClassifyLine(tokens: seq<string>, n: nat, results0: seq<Token>,
                      ids0: map<string, string>, count0: nat)
    returns (results: seq<Token>, variableIdMap: map<string, string>, variableCount: nat, lineError: bool)
    ensures var lr := ClassifyAll(tokens, n, Registry(ids0, count0));
      && results == results0 + lr.tokens
      && Registry(variableIdMap, variableCount) == lr.reg
      && lineError == lr.error
  {
    results, variableIdMap, variableCount, lineError := results0, ids0, count0, false;
    var j := 0;
    while j < |tokens|
      invariant j <= |tokens|
      invariant results == results0 + ClassifyAll(tokens[..j], n, Registry(ids0, count0)).tokens
      invariant Registry(variableIdMap, variableCount) == ClassifyAll(tokens[..j], n, Registry(ids0, count0)).reg
      invariant lineError == ClassifyAll(tokens[..j], n, Registry(ids0, count0)).error
    {
      assert tokens[..j + 1][..j] == tokens[..j];
      ghost var prev := ClassifyAll(tokens[..j], n, Registry(ids0, count0));
      results, variableIdMap, variableCount, lineError :=
        ClassifyToken(tokens[j], n, results, variableIdMap, variableCount, lineError);
      AbsorbFrom(prev, tokens[j], n);
      j := j + 1;
    }
    assert tokens[..|tokens|] == tokens;
  }

  /** The summary of line n, built by walking all of `results` and
      appending the entries that carry number n. */
  method LineOutput(results: seq<Token>, n: nat) returns (lineOutput: string)
    ensures lineOutput == Summary(n, OnLine(results, n))
  {
    lineOutput := "Line " + NatToString(n);
    var k := 0;
    while k < |results|
      invariant k <= |results|
      invariant lineOutput == Summary(n, OnLine(results[..k], n))
    {
      assert results[..k + 1][..k] == results[..k];
      var entry := results[k];
      ghost var prev := OnLine(results[..k], n);
      if entry.lineNumber == n {
        lineOutput := lineOutput + PairText(entry);
        assert OnLine(results[..k + 1], n) == prev + [entry];
        assert (prev + [entry])[..|prev|] == prev;
        assert Summary(n, prev + [entry]) == Summary(n, prev) + PairText(entry);
      } else {
        assert OnLine(results[..k + 1], n) == prev + [];
        assert prev + [] == prev;
      }
      k := k + 1;
    }
    assert results[..|results|] == results;
  }

  /** Line n once the comment filter has kept `code`: scan it, classify
      its lexemes, and push the error message or the line's summary. */
  method EmitLine(code: string, n: nat, results0: seq<Token>, output0: seq<string>, errors0: seq<string>,
                  ids0: map<string, string>, count0: nat)
    returns (results: seq<Token>, output: seq<string>, errors: seq<string>,
             variableIdMap: map<string, string>, variableCount: nat)
    ensures LexState(results, output, errors, Registry(variableIdMap, variableCount), false)
         == Emit(LexState(results0, output0, errors0, Registry(ids0, count0), false), code, n)
  {
    output, errors := output0, errors0;
    var tokens := Scan(code);
    var lineError;
    results, variableIdMap, variableCount, lineError := ClassifyLine(tokens, n, results0, ids0, count0);
    if lineError {
      errors := errors + [ErrorMessage(n)];
    } else {
      var lineOutput := LineOutput(results, n);
      output := output + [lineOutput];
    }
  }

  /** The body of the outer forEach for line n: the comment filter, then
      EmitLine for a line that keeps some code. */
  method ProcessLine(line: string, n: nat, results0: seq<Token>, output0: seq<string>, errors0: seq<string>,
                     ids0: map<string, string>, count0: nat, inComment0: bool)
    returns (results: seq<Token>, output: seq<string>, errors: seq<string>,
             variableIdMap: map<string, string>, variableCount: nat, inMultiLineComment: bool)
    ensures LexState(results, output, errors, Registry(variableIdMap, variableCount), inMultiLineComment)
         == Step(LexState(results0, output0, errors0, Registry(ids0, count0), inComment0), line, n)
  {
    results, output, errors, variableIdMap, variableCount, inMultiLineComment :=
      results0, output0, errors0, ids0, count0, inComment0;
    ghost var filtered := FilterComments(inComment0, line);
    var trimmedLine := Trim(line);
    if trimmedLine == [] {
      assert filtered == Discard(inComment0);
    } else if inMultiLineComment {
      if Contains(trimmedLine, "*/") {
        inMultiLineComment := false;
      }
      assert filtered == Discard(inMultiLineComment);
    } else if Contains(trimmedLine, "/*") {
      inMultiLineComment := true;
      assert filtered == Discard(true);
    } else {
      if Contains(trimmedLine, "//") {
        trimmedLine := Trim(SplitHead(trimmedLine, "//"));
      }
      if trimmedLine == [] {
        assert filtered == Discard(false);
      } else {
        assert filtered == Keep(trimmedLine);
        results, output, errors, variableIdMap, variableCount :=
          EmitLine(trimmedLine, n, results, output, errors, variableIdMap, variableCount);
      }
    }
  }

  /** Run takes one more line by one more Step. */
  lemma RunSnoc(lines: seq<string>, index: nat)
    requires index < |lines|
    ensures Run(lines[..index + 1]) == Step(Run(lines[..index]), lines[index], index + 1)
  {
    assert lines[..index + 1][..index] == lines[..index];
  }

  /** Line index+1 of the text, taking the lexer from its state after the
      earlier lines to its state after this one. */
  method NextLine(lines: seq<string>, index: nat, results0: seq<Token>, output0: seq<string>, errors0: seq<string>,
                  ids0: map<string, string>, count0: nat, inComment0: bool)
    returns (results: seq<Token>, output: seq<string>, errors: seq<string>,
             variableIdMap: map<string, string>, variableCount: nat, inMultiLineComment: bool)
    requires index < |lines|
    requires Run(lines[..index]) == LexState(results0, output0, errors0, Registry(ids0, count0), inComment0)
    ensures Run(lines[..index + 1])
         == LexState(results, output, errors, Registry(variableIdMap, variableCount), inMultiLineComment)
  {
    RunSnoc(lines, index);
    results, output, errors, variableIdMap, variableCount, inMultiLineComment :=
      ProcessLine(lines[index], index + 1, results0, output0, errors0, ids0, count0, inComment0);
  }

  /** The outer forEach over the lines of the text, starting from the
      lexer's initial state. */
  method ProcessLines(lines: seq<string>)
    returns (results: seq<Token>, output: seq<string>, errors: seq<string>,
             variableIdMap: map<string, string>, variableCount: nat, inMultiLineComment: bool)
    ensures Run(lines)
         == LexState(results, output, errors, Registry(variableIdMap, variableCount), inMultiLineComment)
  {
    results, output, errors := [], [], [];
    variableIdMap, variableCount := map[], 1;
    inMultiLineComment := false;
    var index := 0;
    while index < |lines|
      invariant index <= |lines|
      invariant Run(lines[..index])
        == LexState(results, output, errors, Registry(variableIdMap, variableCount), inMultiLineComment)
    {
      results, output, errors, variableIdMap, variableCount, inMultiLineComment :=
        NextLine(lines, index, results, output, errors, variableIdMap, variableCount, inMultiLineComment);
      index := index + 1;
    }
    assert lines[..|lines|] == lines;
  }

  /** `parseFlowScript` on the editor's text, returning what it hands to
      the three state setters. */
  method ParseFlowScript(inputCode: string) returns (results: seq<Token>, output: seq<string>, errors: seq<string>)
    ensures results == Parse(inputCode).results
    ensures output == Parse(inputCode).output
    ensures errors == Parse(inputCode).errors
  {
    var lines := SplitLines(inputCode);
    var variableIdMap, variableCount, inMultiLineComment;
    results, output, errors, variableIdMap, variableCount, inMultiLineComment := ProcessLines(lines);
  }
}
