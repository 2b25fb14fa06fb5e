/** Classification of lexemes and the identifier registry: the test chain
    inside the lexer's inner forEach, `variableIdMap` and `variableCount`. */
module Classifier {
  import opened Text
  import opened Keywords
  import opened Scanner

  /** One entry of `results`. For a reserved word classPart is the word
      itself and valuePart its category ("keyword" or "boolean"); for every
      other lexeme classPart is the category (or the identifier's label) and
      valuePart the lexeme. */
  datatype Token = Token(lineNumber: nat, classPart: string, valuePart: string)

  /** Which branch of the test chain a lexeme takes. */
  datatype Kind = Reserved | Number | Str | Identifier | Operator | Semicolon | Symbol | Unrecognized

  /** The number test: one or more digits and nothing else. */
  predicate IsNumeral(l: string) {
    |l| > 0 && AllDigits(l)
  }

  /** The identifier test: a letter or underscore, then word characters. */
  predicate IsIdentifierShape(l: string) {
    |l| > 0 && (IsLetter(l[0]) || l[0] == '_') && forall i :: 0 <= i < |l| ==> IsWordChar(l[i])
  }

  /** The operator test: one of the eight operator characters alone. */
  predicate IsOperator(l: string) {
    |l| == 1 && (l[0] == '+' || l[0] == '-' || l[0] == '*' || l[0] == '/'
                 || l[0] == '=' || l[0] == '<' || l[0] == '>' || l[0] == '!')
  }

  /** The punctuation test: one of the six punctuation characters alone. */
  predicate IsPunctuation(l: string) {
    |l| == 1 && (l[0] == ';' || l[0] == '(' || l[0] == ')' || l[0] == ','
                 || l[0] == '{' || l[0] == '}')
  }

  /** The test chain; the first test that succeeds decides. */
  function KindOf(l: string): Kind {
    if IsKeyword(l) then Reserved
    else if IsNumeral(l) then Number
    else if IsQuoted(l) then Str
    else if IsIdentifierShape(l) then Identifier
    else if IsOperator(l) then Operator
    else if IsPunctuation(l) then (if l == ";" then Semicolon else Symbol)
    else Unrecognized
  }

  /** Of all the shapes the scanner produces, the only one no test accepts
      is a word run that starts with a digit and is not all digits
      (`9lives`): operators, punctuation, quoted strings, numerals,
      identifiers and reserved words all classify. */
  lemma UnrecognizedIsDigitLedWord(l: string)
    requires IsLexeme(l)
    ensures KindOf(l) == Unrecognized <==> IsWordRun(l) && IsDigit(l[0]) && !AllDigits(l)
  {
    if IsKeyword(l) {
      ReservedWordsAreWords(l);
    }
  }

  // ---------------------------------------------------------------------
  // The identifier registry
  // ---------------------------------------------------------------------

  /** `variableIdMap` and `variableCount`. */
  datatype Registry = Registry(ids: map<string, string>, count: nat)

  /** The registry at the start of every parse. */
  const FreshRegistry := Registry(map[], 1)

  /** The synthetic id: "id" followed by the decimal numeral of k. */
  function IdLabel(k: nat): string {
    "id" + NatToString(k)
  }

  /** The shape of a synthetic id: "id" followed by a numeral. */
  predicate IsIdLabel(s: string) {
    |s| >= 3 && s[0] == 'i' && s[1] == 'd' && AllDigits(s[2..])
  }

  lemma IdLabelShape(k: nat)
    ensures IsIdLabel(IdLabel(k))
  {
    assert IdLabel(k)[2..] == NatToString(k);
  }

  /** Different numbers give different labels. */
  lemma IdLabelInjective(i: nat, j: nat)
    requires IdLabel(i) == IdLabel(j)
    ensures i == j
  {
    assert NatToString(i) == IdLabel(i)[2..];
    assert NatToString(j) == IdLabel(j)[2..];
    NatToStringInjective(i, j);
  }

  /** An id label is never a reserved word. */
  lemma IdLabelNotReserved(s: string)
    requires IsIdLabel(s)
    ensures !IsKeyword(s)
  {
    NoReservedWordStartsWithId(s);
  }

  /** Every registered value is a synthetic id. */
  ghost predicate LabelsOnly(reg: Registry) {
    forall x :: x in reg.ids ==> IsIdLabel(reg.ids[x])
  }

  /** reg' keeps every entry of reg. */
  ghost predicate Extends(reg': Registry, reg: Registry) {
    forall x :: x in reg.ids ==> x in reg'.ids && reg'.ids[x] == reg.ids[x]
  }

  /** Looking up a name, allocating the next label on first sight. The name
      is registered afterwards with the returned label; a known name keeps
      its label and the counter stays; a new name takes `id<count>` and the
      counter moves on by one; no earlier entry changes. */
  function Resolve(reg: Registry, name: string): (r: (string, Registry))
    ensures name in r.1.ids && r.1.ids[name] == r.0
    ensures name in reg.ids ==> r.1 == reg
    ensures name !in reg.ids ==> r.0 == IdLabel(reg.count) && r.1.count == reg.count + 1
    ensures r.1.ids.Keys == reg.ids.Keys + {name}
    ensures forall x :: x in reg.ids ==> r.1.ids[x] == reg.ids[x]
  {
    if name in reg.ids then (reg.ids[name], reg)
    else
      var id := IdLabel(reg.count);
      (id, Registry(reg.ids[name := id], reg.count + 1))
  }

  /** The registry numbers `names` (distinct, in first-occurrence order):
      the k-th of them has label id<k+1>, nothing else is registered, and
      the counter is the next free number. */
  ghost predicate Numbers(reg: Registry, names: seq<string>) {
    && reg.count == |names| + 1
    && reg.ids.Keys == (set x | x in names)
    && (forall i, j :: 0 <= i < j < |names| ==> names[i] != names[j])
    && (forall k :: 0 <= k < |names| ==> names[k] in reg.ids && reg.ids[names[k]] == IdLabel(k + 1))
  }

  /** Resolving a name keeps the numbering: a known name adds nothing, a new
      one becomes the next in first-occurrence order. */
  lemma ResolveKeepsNumbering(reg: Registry, names: seq<string>, name: string)
    requires Numbers(reg, names)
    ensures Numbers(Resolve(reg, name).1, if name in names then names else names + [name])
  {
    if name !in names {
      var names' := names + [name];
      var reg' := Resolve(reg, name).1;
      assert (set x | x in names') == (set x | x in names) + {name};
      forall k | 0 <= k < |names'|
        ensures names'[k] in reg'.ids && reg'.ids[names'[k]] == IdLabel(k + 1)
      {
        if k < |names| {
          assert names'[k] == names[k];
          assert names[k] in reg.ids && reg.ids[names[k]] == IdLabel(k + 1);
          assert names[k] != name;
        }
      }
    }
  }

  /** A numbered registry never gives two names the same label. */
  lemma NumberedLabelsDistinct(reg: Registry, names: seq<string>, a: string, b: string)
    requires Numbers(reg, names)
    requires a in reg.ids && b in reg.ids && a != b
    ensures reg.ids[a] != reg.ids[b]
  {
    var i :| 0 <= i < |names| && names[i] == a;
    var j :| 0 <= j < |names| && names[j] == b;
    if reg.ids[a] == reg.ids[b] {
      IdLabelInjective(i + 1, j + 1);
    }
  }

  // ---------------------------------------------------------------------
  // One lexeme, one line
  // ---------------------------------------------------------------------

  datatype Outcome = Accepted(token: Token) | Rejected

  /** The lexeme a token was made from: the classPart of a reserved word,
      the valuePart of anything else. */
  function LexemeOf(t: Token): string {
    if IsKeyword(t.classPart) then t.classPart else t.valuePart
  }

  /** One iteration of the inner forEach: the token pushed for lexeme l on
      line n, or the line's error flag, and the registry afterwards. */
  function ClassifyLexeme(l: string, n: nat, reg: Registry): (Outcome, Registry) {
    match KindOf(l)
    case Reserved => (Accepted(Token(n, l, Category(l))), reg)
    case Number => (Accepted(Token(n, "number", l)), reg)
    case Str => (Accepted(Token(n, "string", l)), reg)
    case Identifier =>
      var (id, reg') := Resolve(reg, l);
      (Accepted(Token(n, id, l)), reg')
    case Operator => (Accepted(Token(n, "operator", l)), reg)
    case Semicolon => (Accepted(Token(n, "semicolon", l)), reg)
    case Symbol => (Accepted(Token(n, "symbol", l)), reg)
    case Unrecognized => (Rejected, reg)
  }

  /** The classification rules, stated per branch: a lexeme is rejected
      exactly when no test accepts it; an accepted one yields a token on
      line n from which the lexeme can be read back; a reserved word yields
      (word, category); an identifier yields its registered label; every
      other accepted lexeme yields (category, lexeme); only identifiers
      touch the registry. */
  lemma ClassifyLexemeRules(l: string, n: nat, reg: Registry)
    requires LabelsOnly(reg)
    ensures var (o, reg') := ClassifyLexeme(l, n, reg);
      && LabelsOnly(reg') && Extends(reg', reg)
      && (o.Rejected? <==> KindOf(l) == Unrecognized)
      && (o.Accepted? ==> o.token.lineNumber == n && LexemeOf(o.token) == l)
      && (KindOf(l) == Reserved ==> o.token.classPart == l && o.token.valuePart == Category(l))
      && (KindOf(l) == Identifier ==> o.token.valuePart == l && l in reg'.ids && o.token.classPart == reg'.ids[l])
      && (KindOf(l) == Number ==> o.token == Token(n, "number", l))
      && (KindOf(l) == Str ==> o.token == Token(n, "string", l))
      && (KindOf(l) == Operator ==> o.token == Token(n, "operator", l))
      && (KindOf(l) == Semicolon ==> o.token == Token(n, "semicolon", l))
      && (KindOf(l) == Symbol ==> o.token == Token(n, "symbol", l))
      && (KindOf(l) != Identifier ==> reg' == reg)
  {
    ClassifyLexemeRegistry(l, n, reg);
    ClassifyLexemeToken(l, n, reg);
  }

  /** Only an identifier touches the registry, and it only adds a label. */
  lemma ClassifyLexemeRegistry(l: string, n: nat, reg: Registry)
    requires LabelsOnly(reg)
    ensures var reg' := ClassifyLexeme(l, n, reg).1;
      && LabelsOnly(reg') && Extends(reg', reg)
      && (KindOf(l) != Identifier ==> reg' == reg)
  {
    if KindOf(l) == Identifier {
      IdLabelShape(reg.count);
    }
  }

  /** The token made of an accepted lexeme, branch by branch. */
  lemma ClassifyLexemeToken(l: string, n: nat, reg: Registry)
    requires LabelsOnly(reg)
    ensures var (o, reg') := ClassifyLexeme(l, n, reg);
      && (o.Rejected? <==> KindOf(l) == Unrecognized)
      && (o.Accepted? ==> o.token.lineNumber == n && LexemeOf(o.token) == l)
      && (KindOf(l) == Reserved ==> o.token.classPart == l && o.token.valuePart == Category(l))
      && (KindOf(l) == Identifier ==> o.token.valuePart == l && l in reg'.ids && o.token.classPart == reg'.ids[l])
      && (KindOf(l) == Number ==> o.token == Token(n, "number", l))
      && (KindOf(l) == Str ==> o.token == Token(n, "string", l))
      && (KindOf(l) == Operator ==> o.token == Token(n, "operator", l))
      && (KindOf(l) == Semicolon ==> o.token == Token(n, "semicolon", l))
      && (KindOf(l) == Symbol ==> o.token == Token(n, "symbol", l))
  {
    if KindOf(l) == Identifier {
      ResolvedLabel(reg, l);
    }
  }

  /** The label an identifier resolves to is an id label, so never a
      reserved word. */
  lemma ResolvedLabel(reg: Registry, name: string)
    requires LabelsOnly(reg)
    ensures IsIdLabel(Resolve(reg, name).0) && !IsKeyword(Resolve(reg, name).0)
  {
    IdLabelShape(reg.count);
    IdLabelNotReserved(Resolve(reg, name).0);
  }

  /** The inner forEach's effect on one line: the tokens it pushes, the
      registry afterwards, and `lineError`. */
  datatype LineResult = LineResult(tokens: seq<Token>, reg: Registry, error: bool)

  /** The line's state after one more lexeme l. */
  function Absorb(prev: LineResult, l: string, n: nat): LineResult {
    var (o, reg') := ClassifyLexeme(l, n, prev.reg);
    match o
    case Accepted(t) => LineResult(prev.tokens + [t], reg', prev.error)
    case Rejected => LineResult(prev.tokens, reg', true)
  }

  /** Absorbing a lexeme depends on what came before only through the
      registry and the error flag, and only appends to the tokens. */
  lemma AbsorbFrom(prev: LineResult, l: string, n: nat)
    ensures var r := Absorb(prev, l, n);
      var r0 := Absorb(LineResult([], prev.reg, prev.error), l, n);
      r == LineResult(prev.tokens + r0.tokens, r0.reg, r0.error)
  {
  }

  /** The inner forEach over the lexemes of line n, lexeme by lexeme. */
  function ClassifyAll(lexemes: seq<string>, n: nat, reg: Registry): LineResult {
    if lexemes == [] then LineResult([], reg, false)
    else Absorb(ClassifyAll(lexemes[..|lexemes| - 1], n, reg), lexemes[|lexemes| - 1], n)
  }

  predicate HasUnrecognized(lexemes: seq<string>) {
    exists k :: 0 <= k < |lexemes| && KindOf(lexemes[k]) == Unrecognized
  }

  /** The lexemes some test accepts, in order. */
  function Recognized(lexemes: seq<string>): seq<string> {
    if lexemes == [] then []
    else
      var last := lexemes[|lexemes| - 1];
      Recognized(lexemes[..|lexemes| - 1]) + (if KindOf(last) == Unrecognized then [] else [last])
  }

  function LexemesOf(tokens: seq<Token>): seq<string> {
    if tokens == [] then [] else LexemesOf(tokens[..|tokens| - 1]) + [LexemeOf(tokens[|tokens| - 1])]
  }

  /** Every token of a line carries the line's number. */
  lemma {:induction false} ClassifyAllLineNumbers(lexemes: seq<string>, n: nat, reg: Registry)
    ensures forall t :: t in ClassifyAll(lexemes, n, reg).tokens ==> t.lineNumber == n
    decreases |lexemes|
  {
    if lexemes != [] {
      ClassifyAllLineNumbers(lexemes[..|lexemes| - 1], n, reg);
    }
  }

  /** What one more lexeme does to the line: its flag is raised exactly
      by a lexeme no test accepts, which adds no token; any other lexeme
      adds its own token. */
  lemma AbsorbShape(prev: LineResult, l: string, n: nat)
    ensures var r := Absorb(prev, l, n);
      var (o, reg') := ClassifyLexeme(l, n, prev.reg);
      && r.reg == reg'
      && (r.error <==> prev.error || KindOf(l) == Unrecognized)
      && (KindOf(l) == Unrecognized ==> r.tokens == prev.tokens)
      && (KindOf(l) != Unrecognized ==> o.Accepted? && r.tokens == prev.tokens + [o.token])
  {
  }

  lemma HasUnrecognizedSnoc(lexemes: seq<string>)
    requires lexemes != []
    ensures HasUnrecognized(lexemes)
        <==> HasUnrecognized(lexemes[..|lexemes| - 1]) || KindOf(lexemes[|lexemes| - 1]) == Unrecognized
  {
    var init := lexemes[..|lexemes| - 1];
    if HasUnrecognized(init) {
      var k :| 0 <= k < |init| && KindOf(init[k]) == Unrecognized;
      assert lexemes[k] == init[k];
    }
    if HasUnrecognized(lexemes) && KindOf(lexemes[|lexemes| - 1]) != Unrecognized {
      var k :| 0 <= k < |lexemes| && KindOf(lexemes[k]) == Unrecognized;
      assert init[k] == lexemes[k];
    }
  }

  /** The line is in error exactly when some lexeme fails every test; the
      registry only grows and keeps holding labels. */
  lemma ClassifyAllError(lexemes: seq<string>, n: nat, reg: Registry)
    requires LabelsOnly(reg)
    ensures var r := ClassifyAll(lexemes, n, reg);
      && (r.error <==> HasUnrecognized(lexemes))
      && LabelsOnly(r.reg) && Extends(r.reg, reg)
  {
    ClassifyAllFlag(lexemes, n, reg);
    ClassifyAllRegistry(lexemes, n, reg);
  }

  lemma {:induction false} ClassifyAllFlag(lexemes: seq<string>, n: nat, reg: Registry)
    ensures ClassifyAll(lexemes, n, reg).error <==> HasUnrecognized(lexemes)
    decreases |lexemes|
  {
    if lexemes != [] {
      var init := lexemes[..|lexemes| - 1];
      ClassifyAllFlag(init, n, reg);
      AbsorbShape(ClassifyAll(init, n, reg), lexemes[|lexemes| - 1], n);
      HasUnrecognizedSnoc(lexemes);
    }
  }

  lemma {:induction false} ClassifyAllRegistry(lexemes: seq<string>, n: nat, reg: Registry)
    requires LabelsOnly(reg)
    ensures var r := ClassifyAll(lexemes, n, reg);
      LabelsOnly(r.reg) && Extends(r.reg, reg)
    decreases |lexemes|
  {
    if lexemes != [] {
      var init := lexemes[..|lexemes| - 1];
      ClassifyAllRegistry(init, n, reg);
      var prev := ClassifyAll(init, n, reg);
      AbsorbShape(prev, lexemes[|lexemes| - 1], n);
      ClassifyLexemeRegistry(lexemes[|lexemes| - 1], n, prev.reg);
    }
  }

  /** The tokens of a line are made from exactly its recognized lexemes, in
      order: a failing lexeme neither stops the line nor discards the
      tokens pushed before it. */
  lemma {:induction false} ClassifyAllKeepsRecognized(lexemes: seq<string>, n: nat, reg: Registry)
    requires LabelsOnly(reg)
    ensures LexemesOf(ClassifyAll(lexemes, n, reg).tokens) == Recognized(lexemes)
    decreases |lexemes|
  {
    if lexemes != [] {
      var init := lexemes[..|lexemes| - 1];
      var last := lexemes[|lexemes| - 1];
      ClassifyAllKeepsRecognized(init, n, reg);
      ClassifyAllRegistry(init, n, reg);
      var prev := ClassifyAll(init, n, reg);
      AbsorbShape(prev, last, n);
      ClassifyLexemeToken(last, n, prev.reg);
      if KindOf(last) != Unrecognized {
        LexemesOfSnoc(prev.tokens, ClassifyLexeme(last, n, prev.reg).0.token);
      }
    }
  }

  lemma LexemesOfSnoc(tokens: seq<Token>, t: Token)
    ensures LexemesOf(tokens + [t]) == LexemesOf(tokens) + [LexemeOf(t)]
  {
    assert (tokens + [t])[..|tokens|] == tokens;
  }

  /** New names in xs, appended to names in order of first occurrence. */
  function AddNew(names: seq<string>, xs: seq<string>): seq<string> {
    if xs == [] then names
    else
      var prev := AddNew(names, xs[..|xs| - 1]);
      if xs[|xs| - 1] in prev then prev else prev + [xs[|xs| - 1]]
  }

  /** The spellings of the identifier tokens, in order. */
  function Spellings(tokens: seq<Token>): seq<string> {
    if tokens == [] then []
    else
      var last := tokens[|tokens| - 1];
      Spellings(tokens[..|tokens| - 1]) + (if IsIdLabel(last.classPart) then [last.valuePart] else [])
  }

  /** Every identifier token carries the label the registry holds for it. */
  ghost predicate Agrees(tokens: seq<Token>, reg: Registry) {
    forall t :: t in tokens && IsIdLabel(t.classPart) ==> t.valuePart in reg.ids && reg.ids[t.valuePart] == t.classPart
  }

  /** One more lexeme keeps the numbering, extended by its spelling if it
      is a new identifier, and its token agrees with the registry. */
  lemma AbsorbNumbers(prev: LineResult, l: string, n: nat, names: seq<string>)
    requires Numbers(prev.reg, AddNew(names, Spellings(prev.tokens)))
    requires Agrees(prev.tokens, prev.reg)
    ensures var r := Absorb(prev, l, n);
      && Numbers(r.reg, AddNew(names, Spellings(r.tokens)))
      && Agrees(r.tokens, r.reg)
  {
    if KindOf(l) == Identifier {
      AbsorbIdentifier(prev, l, n, names);
    } else if KindOf(l) == Unrecognized {
    } else {
      AbsorbOther(prev, l, n, names);
    }
  }

  lemma AbsorbIdentifier(prev: LineResult, l: string, n: nat, names: seq<string>)
    requires KindOf(l) == Identifier
    requires Numbers(prev.reg, AddNew(names, Spellings(prev.tokens)))
    requires Agrees(prev.tokens, prev.reg)
    ensures var r := Absorb(prev, l, n);
      && Numbers(r.reg, AddNew(names, Spellings(r.tokens)))
      && Agrees(r.tokens, r.reg)
  {
    var mid := AddNew(names, Spellings(prev.tokens));
    var (id, reg') := Resolve(prev.reg, l);
    var t := Token(n, id, l);
    var r := Absorb(prev, l, n);
    assert r == LineResult(prev.tokens + [t], reg', prev.error);
    IdLabelShape(prev.reg.count);
    assert IsIdLabel(id);
    SpellingsSnoc(prev.tokens, t);
    var sp := Spellings(prev.tokens);
    assert (sp + [l])[..|sp|] == sp;
    assert AddNew(names, sp + [l]) == if l in mid then mid else mid + [l];
    ResolveKeepsNumbering(prev.reg, mid, l);
    AgreesSnoc(prev.tokens, t, prev.reg, reg');
  }

  lemma SpellingsSnoc(tokens: seq<Token>, t: Token)
    ensures Spellings(tokens + [t]) == Spellings(tokens) + (if IsIdLabel(t.classPart) then [t.valuePart] else [])
  {
    assert (tokens + [t])[..|tokens|] == tokens;
  }

  lemma AgreesSnoc(tokens: seq<Token>, t: Token, reg: Registry, reg': Registry)
    requires Agrees(tokens, reg) && Extends(reg', reg)
    requires IsIdLabel(t.classPart) ==> t.valuePart in reg'.ids && reg'.ids[t.valuePart] == t.classPart
    ensures Agrees(tokens + [t], reg')
  {
  }

  lemma AbsorbOther(prev: LineResult, l: string, n: nat, names: seq<string>)
    requires KindOf(l) != Identifier && KindOf(l) != Unrecognized
    requires Numbers(prev.reg, AddNew(names, Spellings(prev.tokens)))
    requires Agrees(prev.tokens, prev.reg)
    ensures var r := Absorb(prev, l, n);
      && Numbers(r.reg, AddNew(names, Spellings(r.tokens)))
      && Agrees(r.tokens, r.reg)
  {
    var t := ClassifyLexeme(l, n, prev.reg).0.token;
    assert ClassifyLexeme(l, n, prev.reg) == (Accepted(t), prev.reg);
    var r := Absorb(prev, l, n);
    assert r == LineResult(prev.tokens + [t], prev.reg, prev.error);
    NotALabel(l, n, prev.reg);
    SpellingsSnoc(prev.tokens, t);
    assert Spellings(r.tokens) == Spellings(prev.tokens);
    AgreesSnoc(prev.tokens, t, prev.reg, prev.reg);
  }

  /** The per-line loop extends the numbering by the line's identifiers in
      first-occurrence order, and every identifier token of the line
      carries the label the registry ends up with. */
  lemma {:induction false} ClassifyAllNumbers(lexemes: seq<string>, n: nat, reg: Registry, names: seq<string>)
    requires Numbers(reg, names)
    ensures var r := ClassifyAll(lexemes, n, reg);
      && Numbers(r.reg, AddNew(names, Spellings(r.tokens)))
      && Agrees(r.tokens, r.reg)
    decreases |lexemes|
  {
    if lexemes != [] {
      ClassifyAllNumbers(lexemes[..|lexemes| - 1], n, reg, names);
      AbsorbNumbers(ClassifyAll(lexemes[..|lexemes| - 1], n, reg), lexemes[|lexemes| - 1], n, names);
    }
  }

  /** Only identifiers produce a token whose classPart is a label. */
  lemma NotALabel(l: string, n: nat, reg: Registry)
    requires KindOf(l) != Identifier && KindOf(l) != Unrecognized
    ensures !IsIdLabel(ClassifyLexeme(l, n, reg).0.token.classPart)
  {
    if KindOf(l) == Reserved && IsIdLabel(l) {
      IdLabelNotReserved(l);
    }
  }
}
