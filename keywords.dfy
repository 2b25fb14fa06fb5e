/** FlowScript's reserved words and the category each belongs to
    (the `keywords` object and `isKeyword` in the lexer). */
module Keywords {
  import opened Text

  /** Reserved word to category: sixteen keywords and the two boolean
      literals. */
  const Table: map<string, string> := map[
    "Start" := "keyword",
    "End" := "keyword",
    "checkThis" := "keyword",
    "maybeThis" := "keyword",
    "otherwiseThis" := "keyword",
    "keepDoing" := "keyword",
    "repeatTimes" := "keyword",
    "stopNow" := "keyword",
    "nextRound" := "keyword",
    "show" := "keyword",
    "ask" := "keyword",
    "declare" := "keyword",
    "assign" := "keyword",
    "correct" := "boolean",
    "incorrect" := "boolean",
    "doThis" := "keyword",
    "runThis" := "keyword",
    "comment" := "keyword"
  ]

  /** `isKeyword`: membership among the table's keys. */
  predicate IsKeyword(w: string) {
    w in Table
  }

  /** `keywords[w]` for a reserved word: "boolean" for the two truth
      values, "keyword" for every other entry. */
  function Category(w: string): (c: string)
    requires IsKeyword(w)
    ensures c == "boolean" <==> w == "correct" || w == "incorrect"
    ensures c == "keyword" <==> !(w == "correct" || w == "incorrect")
  {
    Table[w]
  }

  /** Every reserved word is spelled with a letter followed by letters,
      so it also has the shape of an identifier (the keyword test is what
      keeps it from being given an id). */
  lemma ReservedWordsAreWords(w: string)
    requires IsKeyword(w)
    ensures |w| > 0 && IsLetter(w[0])
    ensures forall i :: 0 <= i < |w| ==> IsLetter(w[i])
  {
  }

  /** No reserved word starts with "id", so no reserved word can be
      mistaken for an identifier label. */
  lemma NoReservedWordStartsWithId(w: string)
    requires |w| >= 2 && w[0] == 'i' && w[1] == 'd'
    ensures !IsKeyword(w)
  {
  }
}
