# FlowScript lexer, modelled and verified in Dafny

FlowScript is a small instructional language. Its editor page has one piece of real logic: the lexer
`parseFlowScript` in `src/App.jsx`. The lexer does the following:

- It splits the editor text into lines.
- It trims each line and skips blank ones.
- It runs a two-state block-comment filter and cuts off line comments.
- It segments what remains with one global regular-expression match.
- It classifies each lexeme against the keyword table `keywords` / `isKeyword` and a chain of regular-expression tests. The categories are keyword or boolean, number, string, identifier, operator, semicolon and symbol.
- It gives every identifier a synthetic id `id<N>` in order of first occurrence, using `variableIdMap` and `variableCount`.
- It pushes results into three arrays: the token records (`results`), one summary string per good line (`output`), and one error string per bad line (`errors`).

The project has six modules:

- `Text` (`text.dfy`) holds the JavaScript string operations the lexer uses: `trim`, a regular-expression test for a fixed substring, `split("//")[0]`, `split("\n")`, and `${n}`. It proves their contracts, including the round trip between splitting on and joining with line feeds.
- `Keywords` (`keywords.dfy`) holds the keyword table and `isKeyword`.
- `Scanner` (`scanner.dfy`) holds the line-71 regular expression as an explicit left-to-right scanner, `Scan`. At each position:
  - a word character takes the longest `\w` run;
  - an operator or punctuation character is a lexeme of its own;
  - a double quote with a later double quote takes everything through that quote;
  - any other character is skipped.

  The `\d+` alternative can never win, because `\w+` comes first.
- `Classifier` (`classifier.dfy`) holds the test chain (`KindOf`, `ClassifyLexeme`) and the identifier registry (`Registry`, `Resolve`). It also holds the per-line fold `ClassifyAll`, which gives the meaning of the inner `forEach`.
- `Lexer` (`lexer.dfy`) holds the specification of a whole parse, line by line:
  - `FilterComments`, `Emit` and `Step` describe one line;
  - `Run` folds `Step` over the lines;
  - `Parse` runs on the text.

  It also holds the imperative lexer: `ParseFlowScript` and the methods its loops are made of. They push into sequences, update the registry map and counter, and toggle the comment flag, as the JavaScript does. Each method is proved to compute exactly the specification function it implements.
- `LexerProperties` (`properties.dfy`) proves what the lexer promises about the specification:
  - which lines are skipped, and what a kept line's code is;
  - that there is one report per kept line, in the error list or the output list, and never both;
  - that the tokens of an error line are kept;
  - the format of the summary;
  - line numbers and their order;
  - that identifier ids are consistent over the whole text.

Details of the code that are easy to get wrong, all of which the model follows:

- **Keyword token fields.** A keyword token carries the keyword's spelling in `classPart` and its category (`"keyword"` or `"boolean"`) in `valuePart`. This is the reverse of every other token.
- **Unmatched characters vanish.** A character that no alternative of the regular expression matches is dropped and is never an error. Examples are `@`, `#` and a double quote with no closing quote. So `a @ b;` is a good line. The only lexeme that fails every test is a word run that starts with a digit and is not all digits, such as `9lives` (`Classifier.UnrecognizedIsDigitLedWord`).
- **Lines without tokens still get a summary.** A kept line that produces no token (a line holding only `@`) still gets the summary `Line n`.
- **Any `/*` opens a block comment.** This holds even for a `/*` after `//` or inside a string literal. The whole line is dropped, together with any `*/` on the same line, so a one-line `/* ... */` comment hides every following line up to and including the next line that holds `*/`.

## Model

| member | source | states |
|---|---|---|
| Keywords.Category | src/App.jsx:14-33 | The category of a reserved word is "boolean" exactly for `correct` and `incorrect`, and "keyword" for every other entry. |
| Keywords.IsKeyword | src/App.jsx:14-35 | Membership among the keys of the keyword table. Its properties are stated by `Keywords.Category`, `Keywords.ReservedWordsAreWords` and `Keywords.NoReservedWordStartsWithId`. |
| Keywords.ReservedWordsAreWords | src/App.jsx:14-35 | Every reserved word is a non-empty run of letters. It would pass the identifier test too, and the keyword test coming first is what keeps it from getting an id. |
| Keywords.NoReservedWordStartsWithId | src/App.jsx:14-35 | No reserved word starts with "id", so a synthetic id is never a reserved word. |
| Text.Trim | src/App.jsx:49 | `trim` returns a contiguous piece of the line. When it is not empty, it starts and ends with a non-whitespace character. |
| Text.TrimCutsSpace | src/App.jsx:49-50 | `trim` removes only whitespace, at either end. The result is empty exactly when the line is blank, which is the `!trimmedLine` test. |
| Text.TrimKeeps | src/App.jsx:49 | `trim` never removes a non-whitespace character. |
| Text.ContainsTrimmed | src/App.jsx:66-67 | A fixed string found in the trimmed text is found in the text. |
| Text.Contains | src/App.jsx:54-66 | `/p/.test(s)` for a fixed pattern p: p occurs at some position of s. It is described by `Text.ContainsInInfix`, `Text.ContainsTrimmed` and `LexerProperties.ContainsIffTrimmed`. |
| Text.ContainsInInfix | src/App.jsx:60-67 | A fixed string found in a piece of a text is found in the text. |
| Text.SplitHead | src/App.jsx:67 | `split("//")[0]` is a prefix of the text. It is either the whole text or stops where the separator occurs. |
| Text.SplitHeadIsBeforeFirst | src/App.jsx:67 | `split("//")[0]` cuts at the first occurrence: the separator starts at no position before the cut, even where `//` overlaps itself as in `x///`. The head never contains the separator, and it is the whole text exactly when the separator does not occur. |
| Text.SplitLines | src/App.jsx:38 | `split("\n")` gives at least one piece, and no piece holds a line feed. |
| Text.JoinSplitLines | src/App.jsx:38 | Joining the pieces of `split("\n")` with line feeds gives back the text. |
| Text.SplitJoinLines | src/App.jsx:38 | Splitting the join of line-feed-free lines gives back the lines. |
| Text.IndexOf | src/App.jsx:38 | Gives the first position of a character. |
| Text.NatToString | src/App.jsx:148-150 | `${n}` is a non-empty string of digits with no leading zero (except for 0 itself). |
| Text.DecimalRoundTrip | src/App.jsx:148-150 | Reading back the decimal rendering of n gives n. |
| Text.NatToStringInjective | src/App.jsx:148-150 | Different line numbers and counters render differently. |
| Scanner.WordRunLength | src/App.jsx:71 | The greedy `\w+` takes only word characters and stops at the first non-word character or at the end. |
| Scanner.Scan | src/App.jsx:71-72 | Every lexeme the match returns is a word run, a single operator or punctuation character, or a closed double-quoted string. |
| Scanner.ScanWordFirst | src/App.jsx:71-72 | A word run followed by a non-word character, or by nothing, is one lexeme: the greedy `\w+` never splits a run or stops short of its end. |
| Scanner.ScanQuotedFirst | src/App.jsx:71-72 | A closed double-quoted string is one lexeme, ending at its own closing quote. |
| Scanner.ScanSingleFirst | src/App.jsx:71-72 | An operator or punctuation character is a lexeme of its own. Together with `ScanDropsUnmatched` and `ScanDropsUnclosedQuote`, these fix `Scan` case by case. |
| Scanner.ScanIsSubsequence | src/App.jsx:71-72 | The lexemes, written one after another, are the line with some characters deleted. Nothing is invented or reordered. |
| Scanner.ScanKeepsSignificant | src/App.jsx:71-72 | Every word, operator and punctuation character of the line survives the match, in order. |
| Scanner.ScanDropsUnmatched | src/App.jsx:71-72 | A character that no alternative matches disappears without a trace. |
| Scanner.ScanDropsUnclosedQuote | src/App.jsx:71-72 | A double quote with no closing quote after it disappears too. |
| Classifier.UnrecognizedIsDigitLedWord | src/App.jsx:142-143 | A lexeme of the match fails every test exactly when it is a word run that starts with a digit and is not all digits. |
| Classifier.KindOf | src/App.jsx:78-144 | The first-match test chain: keyword, number, string, identifier, operator, then punctuation split into semicolon and symbol. It is described by `Classifier.ClassifyLexemeRules` and `Classifier.UnrecognizedIsDigitLedWord`. |
| Classifier.ClassifyLexeme | src/App.jsx:78-144 | One iteration of the inner `forEach`: the token pushed, or rejection, and the registry afterwards. It is described by `Classifier.ClassifyLexemeRules` and `Classifier.NotALabel`. |
| Classifier.Resolve | src/App.jsx:108-117 | A known name keeps its label and the counter stays. A new name gets `id<count>` and the counter goes up by one. The name is registered with the returned label, and no earlier entry changes. |
| Classifier.IdLabel | src/App.jsx:110 | The label of the k-th identifier: "id" followed by the numeral of k. It is described by `Classifier.IdLabelShape`, `Classifier.IdLabelInjective` and `Classifier.IdLabelNotReserved`. |
| Classifier.IdLabelShape | src/App.jsx:110 | `id${variableCount}` is "id" followed by a numeral. |
| Classifier.IdLabelInjective | src/App.jsx:110 | Different counter values give different labels. |
| Classifier.IdLabelNotReserved | src/App.jsx:110 | A synthetic id is never a reserved word. |
| Classifier.ResolveKeepsNumbering | src/App.jsx:108-117 | The lookup keeps the registry numbering the names in first-occurrence order. A new name becomes the next one. |
| Classifier.NumberedLabelsDistinct | src/App.jsx:108-117 | A registry built this way never gives two names the same label. |
| Classifier.ClassifyLexemeRules | src/App.jsx:78-144 | The whole test chain, first match winning. A lexeme is rejected exactly when no test accepts it. An accepted token is on line n and gives back its lexeme. A reserved word gives (word, category), an identifier gives (registered label, lexeme), and any other lexeme gives (category, lexeme). Only an identifier changes the registry, which keeps its earlier entries and holds only ids. |
| Classifier.NotALabel | src/App.jsx:78-141 | Only identifiers get a token whose classPart is an id label. |
| Classifier.AbsorbFrom | src/App.jsx:77-145 | One more lexeme only appends to the line's tokens. |
| Classifier.AbsorbShape | src/App.jsx:77-145 | One more lexeme raises the line's error flag exactly when it is unrecognized, and then adds no token. Otherwise it adds its own token. |
| Classifier.Absorb | src/App.jsx:77-145 | The line's tokens, registry and error flag after one more lexeme. It is described by `Classifier.AbsorbShape`, `Classifier.AbsorbFrom` and `Classifier.AbsorbNumbers`. |
| Classifier.ClassifyAll | src/App.jsx:74-145 | The inner `forEach` over a line, lexeme by lexeme. It is described by `Classifier.ClassifyAllError`, `Classifier.ClassifyAllKeepsRecognized`, `Classifier.ClassifyAllLineNumbers` and `Classifier.ClassifyAllNumbers`, and `Lexer.ClassifyLine` computes it. |
| Classifier.ClassifyAllLineNumbers | src/App.jsx:77-145 | Every token pushed for line n carries line number n. |
| Classifier.ClassifyAllError | src/App.jsx:75-145 | `lineError` ends up set exactly when some lexeme of the line fails every test. The registry only grows and keeps holding labels. |
| Classifier.ClassifyAllKeepsRecognized | src/App.jsx:77-145 | A line's tokens are made from exactly its recognized lexemes, in order. This holds on an error line as well: a failing lexeme neither stops the loop nor discards earlier tokens. |
| Classifier.AbsorbNumbers | src/App.jsx:108-117 | One more lexeme keeps the registry numbering the identifier spellings in first-occurrence order. Its token agrees with the registry. |
| Classifier.ClassifyAllNumbers | src/App.jsx:108-117 | Over a line, the numbering grows by the line's new identifiers in first-occurrence order. Every identifier token carries its spelling's label. |
| Lexer.ClassifyToken | src/App.jsx:78-144 | The body of the inner `forEach` for one lexeme pushes, registers or flags exactly as one step of the per-line specification. |
| Lexer.ClassifyLine | src/App.jsx:74-145 | The inner `forEach` over a line's lexemes computes the specified tokens, registry and `lineError`. |
| Lexer.LineOutput | src/App.jsx:150-155 | Walking all of `results` and appending the entries of line n builds the line's summary. |
| Lexer.EmitLine | src/App.jsx:71-157 | For a line whose code is kept: scan, classify, then push the error message or the summary, as `Emit` specifies. |
| Lexer.ProcessLine | src/App.jsx:48-158 | One iteration of the outer `forEach` is `Step`: the comment filter, then `EmitLine`. |
| Lexer.NextLine | src/App.jsx:48-158 | Line index+1 takes the state after the earlier lines to the state after this one. |
| Lexer.ProcessLines | src/App.jsx:39-158 | The outer `forEach`, started from empty arrays, an empty map, counter 1 and no comment, computes `Run` of the lines. |
| Lexer.ParseFlowScript | src/App.jsx:37-163 | `parseFlowScript` returns the tokens, summaries and errors that `Parse` specifies for the text. |
| Lexer.FilterComments | src/App.jsx:49-69 | The comment filter: what a line keeps, and the block-comment flag it leaves. It is described by `LexerProperties.KeptLines`, `LexerProperties.SkippedLines`, `LexerProperties.KeptCode` and `LexerProperties.KeptCodeCut`. |
| Lexer.ErrorMessage | src/App.jsx:148 | The error string of line n. `LexerProperties.EmitReport` and `LexerProperties.LineReport` state when it is pushed. |
| Lexer.OnLine | src/App.jsx:151-152 | The entries of `results` on line n, in order. It is described by `LexerProperties.OnLineAppend`, `LexerProperties.OnLineNone` and `LexerProperties.OnLineAll`. |
| Lexer.Summary | src/App.jsx:150-156 | The summary string of line n, with `Lexer.PairText` giving one " (classPart, valuePart)" pair per token. It is described by `LexerProperties.SummaryFormat`, and `Lexer.LineOutput` computes it. |
| Lexer.Emit | src/App.jsx:71-157 | A kept line: classify its lexemes, then report it. It is described by `LexerProperties.EmitReport` and `LexerProperties.StepAppendsLine`, and `Lexer.EmitLine` computes it. |
| Lexer.Step | src/App.jsx:48-158 | One line of the outer `forEach`: the filter, then `Emit`. It is described by `LexerProperties.SkippedLines`, `LexerProperties.StepAppendsLine` and `LexerProperties.LineReport`, and `Lexer.ProcessLine` computes it. |
| Lexer.Run | src/App.jsx:39-158 | The state after the first lines of the text. It is described by `LexerProperties.RunLines`, `LexerProperties.LineReport`, `LexerProperties.RunNumbers` and `LexerProperties.IdsConsistent`, and `Lexer.ProcessLines` computes it. |
| Lexer.Parse | src/App.jsx:37-163 | The three outputs of a parse of the whole text. `Lexer.ParseFlowScript` computes it. |
| LexerProperties.ContainsIffTrimmed | src/App.jsx:49-66 | A comment marker occurs in the trimmed line exactly when it occurs in the line. |
| LexerProperties.KeptLines | src/App.jsx:49-69 | A line keeps some code exactly when all of the following hold: the lexer is outside a block comment, the line holds no `/*`, it is not blank, and it does not start with `//`. |
| LexerProperties.SkippedLines | src/App.jsx:49-69 | These lines leave tokens, summaries, errors and registry unchanged: a blank line, every line inside a block comment (`*/` ends the comment), a line with `/*` (which opens one), and a line that starts with `//`. |
| LexerProperties.CutIsEmpty | src/App.jsx:66-68 | For a trimmed line, cutting at the first `//` leaves nothing exactly when the line starts with `//`. |
| LexerProperties.KeptCode | src/App.jsx:49-69 | The kept code is not empty, has no surrounding whitespace, holds no `//` and no `/*`, and is a piece of the line. For a line without `//`, it is the trimmed line. For a line with `//`, `LexerProperties.KeptCodeCut` says where the cut falls. |
| LexerProperties.KeptCodeCut | src/App.jsx:66-67 | For a line that holds `//`, the kept code is the trimmed line up to its first `//`, itself trimmed. That cut lies past the line's first character, and no `//` starts before it. |
| LexerProperties.OnLineAppend | src/App.jsx:151-152 | Filtering `results` by line number distributes over concatenation. |
| LexerProperties.OnLineNone | src/App.jsx:151-152 | The filter finds nothing among tokens of other lines. |
| LexerProperties.OnLineAll | src/App.jsx:151-152 | The filter keeps everything among tokens of that line. |
| LexerProperties.PairsSnoc | src/App.jsx:153-155 | The pairs are appended one token at a time. |
| LexerProperties.SummaryFormat | src/App.jsx:150-156 | A summary is "Line n" followed by " (classPart, valuePart)" for each token, in order. It is just "Line n" when the line has no tokens. |
| LexerProperties.StepAppendsLine | src/App.jsx:48-145 | Processing a line only appends to `results`, and everything it appends carries the line's number. |
| LexerProperties.EmitReport | src/App.jsx:71-157 | A kept line makes exactly one report: the error message when some lexeme fails every test, and its summary otherwise. Its tokens are its recognized lexemes, on an error line too. |
| LexerProperties.RunLines | src/App.jsx:48-158 | After any prefix of the text, every token's line number is the 1-based number of a line read so far (skipped lines counted), tokens are ordered by line, and the registry holds only ids. |
| LexerProperties.LineReport | src/App.jsx:48-158 | Line i+1 of the text, when kept, makes exactly one report. It is the error message exactly when some lexeme on it fails every test, and the line's summary otherwise. Its tokens stay in `results` either way. |
| LexerProperties.RunNumbers | src/App.jsx:108-117 | Across the whole text, the registry numbers the distinct identifier spellings in first-occurrence order: the k-th new spelling gets `id<k>`, and the counter is one past the last. Every identifier token carries its spelling's label. |
| LexerProperties.IdsConsistent | src/App.jsx:108-117 | Two identifier tokens of one parse carry the same id exactly when they have the same spelling. |

## Left out

- The React component and the editor: the state hooks, CodeMirror, the button, the tables and the three state setters (`src/App.jsx:1-12`, `160-162`, `165` onwards). `ParseFlowScript` returns the three sequences instead of storing them.
- The `processedTokens` set: it is written for every accepted lexeme but never read, so it has no observable effect.
- The `;` branch inside the keyword case: it can never run, because `;` is not a key of the keyword table.
- The prototype lookup behind `!variableIdMap[token]`: on a plain JavaScript object, a name such as `constructor` or `toString` finds an inherited, truthy member and so gets no fresh id. The registry here is a map with a membership test.
- The regular-expression engine: the line-71 match is replaced by the scanner `Scan`, and the anchored tests of the chain by predicates over the lexeme.
- Character encoding: strings are sequences of Unicode scalar values, not UTF-16 code units. `\w` and `\d` are the ASCII classes, as in JavaScript. `trim` removes the ECMAScript WhiteSpace and LineTerminator characters, listed one by one.
- Timing and concurrency: the lexer runs once per button press, to completion, with nothing shared between runs, so there is nothing of either to model.
