/** The statute records the engine searches and the search results it returns. */
module Statutes {
  import opened JsValues

  /** One JSON Logic rule of a statute. */
  datatype RuleBlock = RuleBlock(rule: JsValue)

  /** A statute as loaded. An absent `rules` or `keywords` list is the empty
      list: every use in the engine treats the two alike. */
  datatype Statute = Statute(
    id: Option<string>,
    title: Option<string>,
    text: Option<string>,
    category: Option<string>,
    keywords: seq<string>,
    rules: seq<RuleBlock>)

  datatype MatchType = RuleMatch | KeywordMatch | SemanticMatch

  datatype SearchResult = SearchResult(
    statute: Statute,
    matchType: MatchType,
    confidence: real,
    matchedVariables: Option<seq<string>>,
    matchedKeywords: Option<seq<string>>,
    explanation: Option<string>)

  /** `statute.id` is truthy: present and not empty. */
  predicate HasId(s: Statute) {
    s.id.Some? && s.id.value != ""
  }

  function ConfidenceOf(r: SearchResult): real {
    r.confidence
  }

  /** The statute id a result is deduplicated by. */
  function IdOf(r: SearchResult): string {
    r.statute.id.GetOr("")
  }
}
