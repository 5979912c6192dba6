/** The match endpoint: variables are extracted from the scenario and merged
    with the caller's, follow-up questions are drawn from the variables the
    statutes' rules read, and the statutes are searched with the caller's
    options over the defaults. */
module MatchRoute {
  import opened JsValues
  import opened Lists
  import opened Statutes
  import opened Requests
  import opened SearchEngine
  import RuleEngine
  import VariableExtractor

  datatype MatchRequest = MatchRequest(
    scenarioInput: Option<string>,
    variables: Option<Vars>,
    options: Option<SearchOptions>)

  datatype MatchResponse = MatchResponse(
    matches: seq<SearchResult>,
    extractedVariables: VariableExtractor.ExtractionResult,
    followUpQuestions: Option<seq<string>>,
    totalStatutes: nat,
    error: Option<string>)

  const InputRequiredMessage: string := "Scenario input is required"
  const NoStatutesMessage: string := "No statutes found"

  /** The body of both rejections, with its error message. */
  function Rejection(message: string): MatchResponse {
    MatchResponse([], VariableExtractor.ExtractionResult(map[], [], []), None, 0, Some(message))
  }

  /** `{ minConfidence: 0.1, maxResults: 10, includeKeywordSearch: true,
      includeRuleSearch: true, ...options }` */
  function MergeOptions(options: SearchOptions): (o: SearchOptions)
    ensures o.minConfidence.Some? && o.maxResults.Some? && o.includeKeywordSearch.Some? && o.includeRuleSearch.Some?
    ensures options.minConfidence.Some? ==> o.minConfidence == options.minConfidence
    ensures options.maxResults.Some? ==> o.maxResults == options.maxResults
    ensures options.includeKeywordSearch.Some? ==> o.includeKeywordSearch == options.includeKeywordSearch
    ensures options.includeRuleSearch.Some? ==> o.includeRuleSearch == options.includeRuleSearch
  {
    SearchOptions(Some(options.minConfidence.GetOr(0.1)), Some(options.maxResults.GetOr(10)),
                  Some(options.includeKeywordSearch.GetOr(true)), Some(options.includeRuleSearch.GetOr(true)))
  }

  /** The route's defaults are the search engine's: merging them in changes
      nothing the search sees. */
  lemma MergeOptionsAgrees(options: SearchOptions)
    ensures WithDefaults(MergeOptions(options)) == WithDefaults(options)
  {
  }

  /** The reply of `handleMatchRequest` for the loaded statutes. */
  function Match(eval: RuleEngine.Evaluator, m: VariableExtractor.Matcher, req: MatchRequest, statutes: seq<Statute>): MatchResponse {
    if Blank(req.scenarioInput) then Rejection(InputRequiredMessage)
    else if statutes == [] then Rejection(NoStatutesMessage)
    else
      var extraction := VariableExtractor.Extract(m, req.scenarioInput.value);
      var finalVariables := MergeVariables(extraction.variables, req.variables.GetOr(map[]));
      var followUps := VariableExtractor.FollowUps(finalVariables, StatuteVariables(statutes));
      var options := MergeOptions(req.options.GetOr(SearchOptions(None, None, None, None)));
      MatchResponse(Search(eval, statutes, req.scenarioInput.value, finalVariables, options),
                    extraction, Some(followUps), |statutes|, None)
  }

  /** `handleMatchRequest`, given the loaded statutes: a blank scenario and an
      empty corpus are rejected with their messages; otherwise the response
      carries no error, even when nothing matches. */
  method HandleMatch(eval: RuleEngine.Evaluator, m: VariableExtractor.Matcher, req: MatchRequest, statutes: seq<Statute>)
    returns (resp: MatchResponse)
    ensures resp == Match(eval, m, req, statutes)
    ensures resp.error == Some(InputRequiredMessage) <==> Blank(req.scenarioInput)
    ensures resp.error == Some(NoStatutesMessage) <==> !Blank(req.scenarioInput) && statutes == []
    ensures resp.error.None? <==> !Blank(req.scenarioInput) && statutes != []
    ensures resp.error.Some? ==> resp.matches == [] && resp.totalStatutes == 0
    ensures resp.error.None? ==>
              && resp.totalStatutes == |statutes|
              && NoDup(Keys(resp.matches, IdOf))
              && SortedDesc(resp.matches, ConfidenceOf)
              && resp.followUpQuestions.Some? && |resp.followUpQuestions.value| <= 5
  {
    if Blank(req.scenarioInput) {
      return Rejection(InputRequiredMessage);
    }
    if statutes == [] {
      return Rejection(NoStatutesMessage);
    }
    var scenarioInput := req.scenarioInput.value;
    var extractionResult := VariableExtractor.ExtractVariablesFromInput(m, scenarioInput);
    var finalVariables := MergeVariables(extractionResult.variables, req.variables.GetOr(map[]));
    var statuteVariables := StatuteVariables(statutes);
    var followUpQuestions := VariableExtractor.GenerateFollowUpQuestions(finalVariables, statuteVariables);
    var searchOptions := MergeOptions(req.options.GetOr(SearchOptions(None, None, None, None)));
    var matches := SearchStatutes(eval, statutes, scenarioInput, finalVariables, searchOptions);
    resp := MatchResponse(matches, extractionResult, Some(followUpQuestions), |statutes|, None);
  }

  /** Caller-supplied variables win key by key; the other extracted variables
      reach the search unchanged. */
  lemma CallerVariablesWin(m: VariableExtractor.Matcher, input: string, provided: Vars, k: string)
    ensures k in provided ==> MergeVariables(VariableExtractor.Extract(m, input).variables, provided)[k] == provided[k]
    ensures k !in provided && k in VariableExtractor.Extract(m, input).variables ==>
              MergeVariables(VariableExtractor.Extract(m, input).variables, provided)[k] == VariableExtractor.Extract(m, input).variables[k]
  {
  }
}
