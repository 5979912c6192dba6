# LAWGIC statute matching, modelled in Dafny

This project models the statute-matching engine of the LAWGIC legal chatbot
and proves properties of the model. It also covers two small helpers from
the newer chatbot: the weighted reciprocal rank fusion (RRF) of its two
search result lists, and the duplicate-response check in its evaluation
script. The model covers:

- **Rule engine** (`RuleEngine`). Statute rules are JSON Logic trees.
  - `applyRule` wraps the JSON Logic evaluator. The evaluator is a function
    parameter that returns a value or an error.
  - `extractVariablesFromRule` collects the variable names a rule reads, in
    depth-first order, each once.
  - `calculateRuleConfidence` is the share of those names that the variable
    record defines.
- **Variable extraction** (`VariableExtractor`).
  - A table of 15 patterns turns a scenario into named values. Regex
    matching is a function parameter.
  - For each name, the first candidate with the strictly highest confidence
    is kept.
  - It makes up to 3 suggestions, makes follow-up questions for unanswered
    statute variables (at most 5), and coerces values against a type schema.
- **Search** (`SearchEngine`).
  - Rule matches and partial rule matches.
  - Weighted keyword scoring over the title, text, keywords and category.
  - Search-term tokenisation.
  - Deduplication by statute id, then the confidence threshold, a stable
    sort and truncation.
  - The list of rule variables a caller has not supplied.
- **The analyze endpoint** (`AnalyzeRoute`).
  - Per-rule analysis: required, provided and missing variables.
  - Per-statute applicability, confidence and explanation.
  - Summary statistics, and the whole request as a function of the loaded
    statutes.
- **The match endpoint** (`MatchRoute`). Its early exits, variable merge and
  option defaults, as a function of the loaded statutes.
- **Shared request logic** (`Requests`): the blank-scenario guard and the
  variable merge.
- **Hybrid retrieval** (`Retrieve`). `performRRF`, and the split of the fused
  list into the model's context (top 15) and the user's references (top 3).
- **Duplicate responses** (`ChatbotTests`). `detectDuplicates`, and the loop
  that flags test results as duplicates.
- **Support modules.**
  - `JsValues` models JavaScript values, truthiness, `String()` and
    `Math.round`.
  - `JsStrings` models `toLowerCase`, `trim` and `includes`.
  - `Lists` holds ordered-set, keep-best-per-key, stable sort and slice
    helpers, with their lemmas.

Each source function that loops or mutates is a `method`. Its `ensures` ties
the result to a specification function. The lemmas next to that function
state what the source promises. Function-typed parameters stand for code
outside the model: the JSON Logic evaluator, regex matching, `parseFloat` and
number printing.

## Model

| member | source | states |
|---|---|---|
| RuleEngine.ApplyRule | chatbot/backend/lib/ruleEngine.ts:7-15 | An evaluation error yields false. Otherwise the result is the truthiness of the evaluated value. |
| RuleEngine.VarRefsMentions | chatbot/backend/lib/ruleEngine.ts:23-37 | The walk collects a name from a value iff the value mentions it: somewhere inside it, under arrays and object entries, a `var` key has that string as its value. A non-string `var` value is walked like any other value. |
| RuleEngine.ItemRefsMentions | chatbot/backend/lib/ruleEngine.ts:25-26 | An array yields exactly the names its items mention. |
| RuleEngine.EntryRefsMentions | chatbot/backend/lib/ruleEngine.ts:27-34 | An object yields exactly the names its entries mention. |
| RuleEngine.EntryRefMentions | chatbot/backend/lib/ruleEngine.ts:29-33 | A `var` entry with a string value yields exactly that name. Any other entry yields what its value mentions. |
| RuleEngine.Traverse | chatbot/backend/lib/ruleEngine.ts:23-37 | The set after the walk is the set before it, extended by the walk's names in the order met, skipping names already present. |
| RuleEngine.ExtractVariablesFromRule | chatbot/backend/lib/ruleEngine.ts:20-41 | Returns every name the rule mentions, each exactly once, in first-met order. It returns no other names. The match route's local copy (lines 125-146 of its route.ts) is the same code and shares this member. |
| RuleEngine.RuleVariablesSpec | chatbot/backend/lib/ruleEngine.ts:20-41 | The extracted names have no repeats. A name is among them iff the rule mentions it. |
| RuleEngine.DefinedAmong | chatbot/backend/lib/ruleEngine.ts:51-59 | The filter never returns more names than it was given. |
| RuleEngine.DefinedAmongSpec | chatbot/backend/lib/ruleEngine.ts:51-59 | The filter keeps exactly the given names whose value is neither null nor undefined. Splitting the names anywhere splits the result at the same point, so the kept names stay in input order. |
| RuleEngine.DefinedAmongAppend | chatbot/backend/lib/ruleEngine.ts:51-59 | Filtering a + b gives the kept names of a, then those of b. |
| RuleEngine.DefinedAmongAll | chatbot/backend/lib/ruleEngine.ts:57-61 | The filter keeps every name iff every name has a value. |
| RuleEngine.DefinedAmongLocal | chatbot/backend/lib/ruleEngine.ts:51-59 | Record entries for other names do not change the filter. |
| RuleEngine.DefinedAmongMono | chatbot/backend/lib/ruleEngine.ts:51-59 | Defining more names never shrinks the filter. |
| RuleEngine.RuleConfidence | chatbot/backend/lib/ruleEngine.ts:46-62 | The confidence lies in [0, 1], and is 0 when the rule reads no variable. |
| RuleEngine.RuleConfidenceFull | chatbot/backend/lib/ruleEngine.ts:55-61 | The confidence is 1 iff the rule reads some name and every name it reads has a value. |
| RuleEngine.RuleConfidenceLocal | chatbot/backend/lib/ruleEngine.ts:51-59 | Only the names the rule reads affect the confidence. |
| RuleEngine.RuleConfidenceMono | chatbot/backend/lib/ruleEngine.ts:50-61 | Defining more variables never lowers the confidence. |
| VariableExtractor.ScanDigits | chatbot/backend/old/lib/variableExtractor.ts:83 | `parseInt` reads a run of decimal digits as their value and then stops; a digit run marks the number as seen. |
| VariableExtractor.ParseIntOfDigits | chatbot/backend/old/lib/variableExtractor.ts:83 | `parseInt` of a non-empty run of decimal digits is the decimal value of the run, leading zeros included. |
| VariableExtractor.ParseIntOfNat | chatbot/backend/old/lib/variableExtractor.ts:83 | `parseInt` of a decimal numeral gives that number. |
| VariableExtractor.MatchPatterns | chatbot/backend/old/lib/variableExtractor.ts:119-137 | The candidate loop produces the table-order candidate list: one record per matching pattern, whose source is the matched text. |
| VariableExtractor.CandidatesAppend | chatbot/backend/old/lib/variableExtractor.ts:119-137 | The candidates of two pattern tables put one after the other are the first table's candidates followed by the second's. |
| VariableExtractor.CandidateOrigin | chatbot/backend/old/lib/variableExtractor.ts:119-137 | Every candidate carries the name and confidence of some pattern in the table. |
| VariableExtractor.ResolveMatches | chatbot/backend/old/lib/variableExtractor.ts:139-149 | The resolution loop gives the keep-strictly-better map, and the variables record built from it. |
| VariableExtractor.VarsOfSpec | chatbot/backend/old/lib/variableExtractor.ts:139-149 | The variables record has exactly the kept names as keys. Each key holds the value of its kept record. |
| VariableExtractor.ResolveFirst | chatbot/backend/old/lib/variableExtractor.ts:139-149 | When each name's candidates come in non-increasing confidence, a name is a key of the variables iff some candidate has it, and it holds the value of the first such candidate. |
| VariableExtractor.VarsOfReplace | chatbot/backend/old/lib/variableExtractor.ts:145-147 | Replacing a kept record in place changes only that name's value. |
| VariableExtractor.PatternsOrdered | chatbot/backend/old/lib/variableExtractor.ts:24-116 | Within the table, a later pattern for a name never has higher confidence than an earlier pattern for the same name. |
| VariableExtractor.FirstMatchingIsFirstCandidate | chatbot/backend/old/lib/variableExtractor.ts:119-137 | A name's first candidate comes from the first matching pattern for that name. A name has no candidate iff no pattern for it matches. |
| VariableExtractor.CandidatesOrdered | chatbot/backend/old/lib/variableExtractor.ts:119-137 | For a table ordered that way, later candidates for a name never have higher confidence than earlier ones. |
| VariableExtractor.ResolvedIsFirstMatch | chatbot/backend/old/lib/variableExtractor.ts:143-149 | With such a table, a name is extracted iff some pattern for it matches. Its value is then the value of the first matching pattern, because ties keep the earlier candidate. |
| VariableExtractor.OfferMadeFirstPattern | chatbot/backend/old/lib/variableExtractor.ts:26-31 | When the first pattern matches, offer_made is extracted as true. |
| VariableExtractor.OfferDeniedSecondPattern | chatbot/backend/old/lib/variableExtractor.ts:32-37 | When only the second pattern matches, offer_made is extracted as false. |
| VariableExtractor.TimeLimitDays | chatbot/backend/old/lib/variableExtractor.ts:80-85 | For any non-empty digit group the pattern captures, leading zeros included, time_limit_days is set and holds the decimal value of that group. |
| VariableExtractor.TimeLimitValue | chatbot/backend/old/lib/variableExtractor.ts:80-85 | A match of the time-limit pattern sets time_limit_days to `parseInt` of the captured group. |
| VariableExtractor.TimeLimitDaysOfNat | chatbot/backend/old/lib/variableExtractor.ts:80-85 | A captured group that is the decimal numeral of a number of days gives back that number. |
| VariableExtractor.FirstTimeLimitPattern | chatbot/backend/old/lib/variableExtractor.ts:80-85 | The time-limit pattern is the only pattern for its name, so its match is that name's first match. |
| VariableExtractor.SuggestMissing | chatbot/backend/old/lib/variableExtractor.ts:163-167 | The suggestion loop yields the suggestion list for the common variables. |
| VariableExtractor.SuggestionListSpec | chatbot/backend/old/lib/variableExtractor.ts:163-167 | There is a suggestion for exactly the listed names whose value is missing or falsy. Splitting the names anywhere splits the suggestions at the same point, so they follow the list order. |
| VariableExtractor.SuggestionListAppend | chatbot/backend/old/lib/variableExtractor.ts:163-167 | The suggestions for a + b are those for a, then those for b. |
| VariableExtractor.SuggestionListAllFalsy | chatbot/backend/old/lib/variableExtractor.ts:163-167 | When every listed name is falsy, the suggestions follow the list, one per name. |
| VariableExtractor.Suggestions | chatbot/backend/old/lib/variableExtractor.ts:152-172 | At most 3 suggestions are returned. |
| VariableExtractor.SuggestionsForEmptyRecord | chatbot/backend/old/lib/variableExtractor.ts:152-172 | An empty record gets the suggestions for offer_made, governor_accepted and certificate_filed. |
| VariableExtractor.OfferMadeSuggestionText | chatbot/backend/old/lib/variableExtractor.ts:165 | Underscores in the name become spaces in the suggestion text. |
| VariableExtractor.NothingMatches | chatbot/backend/old/lib/variableExtractor.ts:119-173 | When no pattern matches, the variables and records are empty, and the suggestions are the first three templates. |
| VariableExtractor.ExtractVariablesFromInput | chatbot/backend/old/lib/variableExtractor.ts:19-174 | There is one extracted record per name. The variables' keys are the records' names, and each variable holds its record's value. |
| VariableExtractor.TemplatesDistinct | chatbot/backend/old/lib/variableExtractor.ts:184-195 | No two names share a question template. |
| VariableExtractor.Unanswered | chatbot/backend/old/lib/variableExtractor.ts:198-199 | The filter keeps exactly the statute variables whose value is falsy, never more than given. |
| VariableExtractor.UnansweredAppend | chatbot/backend/old/lib/variableExtractor.ts:198-199 | The unanswered variables of a + b are those of a, then those of b. |
| VariableExtractor.QuestionsForSpec | chatbot/backend/old/lib/variableExtractor.ts:202-206 | There is a question for each name that has a template and none for other names. There are never more questions than names, and exactly one per name when every name has a template. Splitting the names anywhere splits the questions at the same point, so they follow the names' order. |
| VariableExtractor.QuestionsForAppend | chatbot/backend/old/lib/variableExtractor.ts:202-206 | The questions for a + b are those for a, then those for b. |
| VariableExtractor.GenerateFollowUpQuestions | chatbot/backend/old/lib/variableExtractor.ts:179-209 | The loop yields the follow-up list: templates of the first 5 falsy statute variables. There are at most 5 questions. |
| VariableExtractor.FollowUpsSpec | chatbot/backend/old/lib/variableExtractor.ts:197-208 | Each question belongs to a falsy statute variable. A truthy variable never gets its question. Every templated name among the first 5 falsy ones gets its question. |
| VariableExtractor.ValidateVariables | chatbot/backend/old/lib/variableExtractor.ts:214-251 | Validation follows the schema-driven map and keeps the record's key set. |
| VariableExtractor.CoerceEntry | chatbot/backend/old/lib/variableExtractor.ts:223-247 | One entry is coerced by its expected type, or copied when it has none. |
| VariableExtractor.ValidatedTypes | chatbot/backend/old/lib/variableExtractor.ts:230-247 | 'boolean' stores the value's truthiness and 'string' stores `String(value)`. 'number' keeps numbers and otherwise yields a number or NaN. Any other type copies the value. |
| VariableExtractor.ValidatedUntyped | chatbot/backend/old/lib/variableExtractor.ts:218-228 | Without a schema the record is returned as is. With a schema the keys stay the same, and a key with no (or an empty) schema entry keeps its value. |
| VariableExtractor.ValidateIdempotent | chatbot/backend/old/lib/variableExtractor.ts:214-251 | Validating twice against the same schema gives the same record as validating once. |
| SearchTerms.Sanitize | chatbot/backend/old/lib/searchEngine.ts:148 | Every character that is neither a word character nor white space becomes a space. Every other character and the length are kept. |
| SearchTerms.SanitizedChars | chatbot/backend/old/lib/searchEngine.ts:146-148 | After lower-casing and sanitising, only lower-case word characters and white space remain. |
| SearchTerms.SplitWsSpec | chatbot/backend/old/lib/searchEngine.ts:149 | `split(/\s+/)`: no piece holds white space, and the pieces concatenated are the non-white-space characters in order. Every maximal run of non-white-space characters is a piece, and every non-empty piece is such a run. |
| SearchTerms.SplitWsChars | chatbot/backend/old/lib/searchEngine.ts:149 | Splitting such text on white space gives words of lower-case word characters only. |
| SearchTerms.KeepTermsSpec | chatbot/backend/old/lib/searchEngine.ts:150 | A word is kept iff it is longer than 2 characters and not a stop word. Splitting the words anywhere splits the result at the same point, so the kept words stay in input order. |
| SearchTerms.KeepTermsAppend | chatbot/backend/old/lib/searchEngine.ts:150 | Filtering a + b gives the kept words of a, then those of b. |
| SearchTerms.SearchTermsSpec | chatbot/backend/old/lib/searchEngine.ts:139-152 | The terms are a prefix of the kept words of the split input, of length min(10, number kept); with at most 10 kept, every qualifying word is a term. Each term is a word of the input, longer than 2 characters, not a stop word, with only lower-case word characters. |
| SearchEngine.FirstHitSpec | chatbot/backend/old/lib/searchEngine.ts:117-123 | A term scores iff some field contains it. It then scores the weight of the first such field, because the loop breaks there. |
| SearchEngine.HitTermsSpec | chatbot/backend/old/lib/searchEngine.ts:114-124 | The matched keywords are exactly the terms some field contains. |
| SearchEngine.TotalScoreBounds | chatbot/backend/old/lib/searchEngine.ts:114-124 | With weights of at most 3, the score is between 0 and 3 times the number of terms. |
| SearchEngine.ScoreTerms | chatbot/backend/old/lib/searchEngine.ts:103-134 | The loop with its running totals and `break` computes the keyword score of the fields for the terms. |
| SearchEngine.KeywordScoreSpec | chatbot/backend/old/lib/searchEngine.ts:126-133 | The confidence is in [0, 0.9], and is 0 without terms. The matched keywords have no repeats, and are exactly the terms some field contains. |
| SearchEngine.PerformKeywordSearch | chatbot/backend/old/lib/searchEngine.ts:98-135 | The keyword search scores the statute's four weighted fields against the input's search terms. |
| SearchEngine.KeywordSearchSpec | chatbot/backend/old/lib/searchEngine.ts:98-135 | For a statute: confidence in [0, 0.9], 0 without terms. The keywords have no repeats and are exactly the search terms found in the title, text, joined keywords or category. |
| SearchEngine.TotalScoreAllFirst | chatbot/backend/old/lib/searchEngine.ts:107-124 | When the weight-3 first field contains every term, the score is 3 per term. |
| SearchEngine.TitleHitsEverything | chatbot/backend/old/lib/searchEngine.ts:107-131 | When the title contains every search term and there is at least one, the confidence is the 0.9 cap. |
| SearchEngine.PresentAmong | chatbot/backend/old/lib/searchEngine.ts:45-46 | The matched variables are exactly the rule's names that the record defines. |
| SearchEngine.RuleBlockResultSpec | chatbot/backend/old/lib/searchEngine.ts:43-69 | A matching rule yields a rule result with confidence in [0.8, 1]. A failing rule yields a result iff its confidence is at least 0.7, and the result's confidence is then 0.6 times it, in [0.42, 0.6]. The matched variables are the rule's names present in the record. |
| SearchEngine.MatchRuleBlock | chatbot/backend/old/lib/searchEngine.ts:43-69 | The per-block branch gives the rule-block result. |
| SearchEngine.MatchRules | chatbot/backend/old/lib/searchEngine.ts:41-72 | The rule loop pushes the block results in rule order. |
| SearchEngine.MatchKeywords | chatbot/backend/old/lib/searchEngine.ts:75-83 | The keyword result is pushed iff its confidence reaches the threshold. |
| SearchEngine.CollectResults | chatbot/backend/old/lib/searchEngine.ts:37-84 | The statute loop gives the raw results: per statute, rule results (when enabled) and then the keyword result (when enabled). |
| SearchEngine.WithId | chatbot/backend/old/lib/searchEngine.ts:161-166 | Results whose statute id is missing or empty are skipped. Every other result is kept. |
| SearchEngine.WithIdAppend | chatbot/backend/old/lib/searchEngine.ts:161-166 | The results kept from a + b are those kept from a, then those kept from b. |
| SearchEngine.DeduplicateResults | chatbot/backend/old/lib/searchEngine.ts:157-176 | The Map loop gives the keep-strictly-better list of results with an id. |
| SearchEngine.DeduplicatedSpec | chatbot/backend/old/lib/searchEngine.ts:157-176 | The ids of the output are the ids of the results that have one, without repeats, in order of first appearance (the Map's insertion order). Each kept result is the first result of its id with the highest confidence. Every id present in the input is kept. |
| Lists.KeepBestKeys | chatbot/backend/old/lib/searchEngine.ts:168-175 | The deduplicated ids are the distinct ids in order of first appearance. |
| Lists.KeepBestChosen | chatbot/backend/old/lib/searchEngine.ts:168-172 | Each kept element is the first one of its key with the strictly highest score. |
| Lists.AtLeast | chatbot/backend/old/lib/searchEngine.ts:90 | The filter keeps exactly the results at or above the threshold. |
| Lists.AtLeastAppend | chatbot/backend/old/lib/searchEngine.ts:90 | Filtering a + b gives the kept results of a, then those of b. |
| Lists.AtLeastKeepsTies | chatbot/backend/old/lib/searchEngine.ts:90 | For any confidence c at or above the threshold, the results scoring exactly c are the same, in the same order, before and after the filter. |
| Lists.TopPrefix | chatbot/backend/old/lib/searchEngine.ts:91-92 | Slicing a list sorted by non-increasing score keeps its top: anything left out scores no more than anything kept. |
| Lists.SortDescSpec | chatbot/backend/old/lib/searchEngine.ts:91 | The sort is a permutation, in non-increasing order, and stable: for each score, the results with that score keep their order. |
| Lists.Slice | chatbot/backend/old/lib/searchEngine.ts:92 | `slice(0, n)` is a prefix of length min(n, length), and a negative n counts from the end. |
| SearchEngine.SearchSpec | chatbot/backend/old/lib/searchEngine.ts:86-92 | After the threshold, sort and slice: no id twice, every confidence at least the threshold, sorted by non-increasing confidence. The output has exactly min(maxResults, number at or above the threshold) results and is their top: a result left out scores no more than any result returned. When all of them fit, the output is a permutation of them. For each confidence at or above the threshold, the output results of that confidence are a prefix of the deduplicated results of that confidence, in their order (the stable sort). |
| SearchEngine.SearchResultsSpec | chatbot/backend/old/lib/searchEngine.ts:24-93 | The same properties for the whole search with the options' defaults applied: distinct set ids, threshold, stable non-increasing order, and the top min(maxResults, number qualifying) of the qualifying deduplicated results, all of them when they fit. |
| SearchEngine.SearchStatutes | chatbot/backend/old/lib/searchEngine.ts:24-93 | With the options' defaults applied, the output has distinct ids that are all set, confidences at least minConfidence, and non-increasing order. Results of equal confidence keep their order from the deduplicated results. The output is the top min(maxResults, number qualifying) of the deduplicated results that reach minConfidence, and all of them when they fit. |
| SearchEngine.RulesRefsSpec | chatbot/backend/old/lib/searchEngine.ts:188-195 | A name is collected from a statute's rules iff one of its rules mentions it. |
| SearchEngine.StatutesRefsSpec | chatbot/backend/old/lib/searchEngine.ts:188-195 | A name is collected from the statutes iff some rule of some statute mentions it. |
| SearchEngine.StatuteVariablesSpec | chatbot/backend/old/api/match/route.ts:81-87 | The statute variable list has no repeats, and holds exactly the names some statute's rule mentions. |
| SearchEngine.NotKeys | chatbot/backend/old/lib/searchEngine.ts:197-198 | The filter keeps exactly the names that are not keys of the record, and keeps them distinct. |
| SearchEngine.NotKeysAppend | chatbot/backend/old/lib/searchEngine.ts:197-198 | The names of a + b that are not keys are those of a, then those of b. |
| SearchEngine.SuggestMissingVariables | chatbot/backend/old/lib/searchEngine.ts:182-199 | The names some rule mentions that are not keys of the current record, each once, in first-seen order. |
| Requests.BlankSpec | chatbot/backend/old/api/match/route.ts:46 | A scenario is rejected iff it is absent or entirely white space. The analyze route uses the same guard. |
| Requests.MergeVariables | chatbot/backend/old/api/match/route.ts:75-78 | The merged record has every key of either record. The caller's value wins, and other extracted values are kept. The analyze route merges the same way. |
| MatchRoute.MergeOptions | chatbot/backend/old/api/match/route.ts:93-99 | Every option is set. An option the caller supplies overrides its default. |
| MatchRoute.MergeOptionsAgrees | chatbot/backend/old/api/match/route.ts:93-99 | The route's defaults equal the search engine's own defaults, so they change nothing the search sees. |
| MatchRoute.CallerVariablesWin | chatbot/backend/old/api/match/route.ts:71-78 | A caller variable overrides the extracted one. Other extracted variables reach the search unchanged. |
| MatchRoute.HandleMatch | chatbot/backend/old/api/match/route.ts:38-122 | A blank scenario gives 'Scenario input is required', and otherwise an empty corpus gives 'No statutes found'; both come with no matches. Otherwise there is no error, even with no matches. totalStatutes is the corpus size, the matches have distinct ids in non-increasing order, and there are at most 5 follow-ups. |
| AnalyzeRoute.MissingAmong | chatbot/backend/app/api/analyze/route.ts:185-187 | The filter never returns more names than are required. |
| AnalyzeRoute.MissingAmongSpec | chatbot/backend/app/api/analyze/route.ts:185-187 | The filter keeps exactly the required names whose value is null or undefined. Splitting the names anywhere splits the result at the same point, so the kept names stay in input order. |
| AnalyzeRoute.MissingAmongAppend | chatbot/backend/app/api/analyze/route.ts:185-187 | Filtering a + b gives the missing names of a, then those of b. |
| AnalyzeRoute.PartitionSizes | chatbot/backend/app/api/analyze/route.ts:181-187 | The provided and missing names together account for every required name. |
| AnalyzeRoute.RuleAnalysisSpec | chatbot/backend/app/api/analyze/route.ts:179-205 | A rule's entry has its index and its match outcome, and a confidence in [0, 1]. Its required names are the ones the rule mentions. Provided and missing partition them by whether they have a value. |
| AnalyzeRoute.AnalyzeRule | chatbot/backend/app/api/analyze/route.ts:180-205 | One iteration builds the rule's entry and the unrounded ratio. |
| AnalyzeRoute.AnalyzeRules | chatbot/backend/app/api/analyze/route.ts:174-206 | The `forEach` yields the rule entries, whether any rule matched, and the largest ratio. |
| AnalyzeRoute.RuleAnalysesLength | chatbot/backend/app/api/analyze/route.ts:179-206 | There is one entry per rule block. |
| AnalyzeRoute.RuleAnalysisAt | chatbot/backend/app/api/analyze/route.ts:179-205 | There is one entry per rule block, and entry i is the analysis of rule block i with index i. |
| AnalyzeRoute.RuleAnalysesIndex | chatbot/backend/app/api/analyze/route.ts:179-205 | Entry i describes rule block i. |
| AnalyzeRoute.AnyMatchedSpec | chatbot/backend/app/api/analyze/route.ts:189-194 | `overallApplicable` holds iff some rule matched, iff the matched count is positive. |
| AnalyzeRoute.MatchedCountBound | chatbot/backend/app/api/analyze/route.ts:215-216 | The matched count never exceeds the number of rules. |
| AnalyzeRoute.MaxRatioSpec | chatbot/backend/app/api/analyze/route.ts:190-196 | `maxConfidence` lies in [0, 1], bounds every rule's ratio, and is attained by some rule. |
| AnalyzeRoute.AnalyzeStatute | chatbot/backend/app/api/analyze/route.ts:173-231 | The method computes the statute's analysis. |
| AnalyzeRoute.AnalysisRules | chatbot/backend/app/api/analyze/route.ts:173-231 | There is one entry per rule, in order. `applicable` holds iff some rule matched, iff the matched count is positive. The id and title are the statute's. |
| AnalyzeRoute.AnalysisConfidenceSpec | chatbot/backend/app/api/analyze/route.ts:207-227 | The confidence is in [0, 1]. With no rules: not applicable, confidence 0.1, no entries and the 'does not appear to apply' text. Otherwise the confidence is the largest ratio rounded to 2 decimals, so no rule's ratio exceeds it by half a hundredth or more. |
| AnalyzeRoute.RoundTenth | chatbot/backend/app/api/analyze/route.ts:209-227 | The 0.1 baseline survives rounding to two decimals. |
| AnalyzeRoute.ConfidenceIgnoresEvaluation | chatbot/backend/app/api/analyze/route.ts:189-196 | Whether rules match never changes a statute's confidence. |
| AnalyzeRoute.ExplanationSpec | chatbot/backend/app/api/analyze/route.ts:212-221 | If applicable, the text is 'K of N rules matched'. If not applicable and no rule's ratio exceeds 0.5, it is 'does not appear to apply'. |
| AnalyzeRoute.ExplanationPartial | chatbot/backend/app/api/analyze/route.ts:217-218 | If not applicable and some rule's ratio exceeds 0.5, the text is the partial-match message with the largest ratio as a rounded percentage. |
| AnalyzeRoute.MostLikelySpec | chatbot/backend/app/api/analyze/route.ts:133-135 | The most likely statute exists iff there is an analysis. It is the first one with the greatest confidence. |
| AnalyzeRoute.ApplicableCountSpec | chatbot/backend/app/api/analyze/route.ts:129 | The applicable count is at most the total, and is 0 iff no statute is applicable. |
| AnalyzeRoute.TotalConfidenceBounds | chatbot/backend/app/api/analyze/route.ts:130 | With confidences in [0, 1], their sum lies between 0 and the count. |
| AnalyzeRoute.SummarySpec | chatbot/backend/app/api/analyze/route.ts:128-146 | totalStatutes is the count, and applicableStatutes is at most it. With nothing analysed, the average is 0 and there is no most likely statute. Confidences in [0, 1] give an average in [0, 1]. |
| AnalyzeRoute.WithListedId | chatbot/backend/app/api/analyze/route.ts:97 | The filter keeps exactly the statutes whose id is set and listed. |
| AnalyzeRoute.SelectStatutesSpec | chatbot/backend/app/api/analyze/route.ts:95-98 | With a non-empty id list, exactly the statutes with a set, listed id are analysed. |
| AnalyzeRoute.Analyses | chatbot/backend/app/api/analyze/route.ts:109-115 | There is one analysis per selected statute, in order. |
| AnalyzeRoute.AnalysesBounded | chatbot/backend/app/api/analyze/route.ts:109-115 | Every statute's analysis has a confidence in [0, 1]. |
| AnalyzeRoute.AnalyzeAll | chatbot/backend/app/api/analyze/route.ts:110-115 | The loop pushes each statute's analysis. |
| AnalyzeRoute.HandleAnalyze | chatbot/backend/app/api/analyze/route.ts:54-171 | A blank scenario and an empty corpus are rejected with the empty body. Otherwise the analyses are a permutation of the per-statute analyses in non-increasing confidence, the reply carries the whole extraction result of the scenario, and there are at most 5 follow-ups. |
| AnalyzeRoute.AnalyzeSummary | chatbot/backend/app/api/analyze/route.ts:128-149 | On success the summary counts the selected statutes. Every confidence and the average lie in [0, 1]. |
| Retrieve.Bump | law_as_code_chatbot/src/lib/graph/nodes/retrieve.ts:52-57 | One step: an unseen id gets an entry with score 0, then the weighted reciprocal rank is added to that id's score. |
| Retrieve.PerformRRF | law_as_code_chatbot/src/lib/graph/nodes/retrieve.ts:47-76 | The two loops, the sort and the map compute the fused ranking. |
| Retrieve.DocsOf | law_as_code_chatbot/src/lib/graph/nodes/retrieve.ts:73 | The output lists each entry's document, in order. |
| Retrieve.KeysAddScore | law_as_code_chatbot/src/lib/graph/nodes/retrieve.ts:52-55 | A step adds the id to the map only when it is new. |
| Retrieve.KeysAddList | law_as_code_chatbot/src/lib/graph/nodes/retrieve.ts:51-58 | After a list, the map's ids are the earlier ids followed by the list's new ids, each once, in first-seen order. |
| Retrieve.FuseKeys | law_as_code_chatbot/src/lib/graph/nodes/retrieve.ts:48-68 | The fused ids are the distinct ids of list A and then list B, in first-seen order. |
| Retrieve.RRFIds | law_as_code_chatbot/src/lib/graph/nodes/retrieve.ts:47-75 | Every id of either list appears exactly once in the output, and no other id does. The length is the number of distinct ids. |
| Retrieve.ScoreAddScore | law_as_code_chatbot/src/lib/graph/nodes/retrieve.ts:53-57 | A step raises only its own id's score, by the contribution. |
| Retrieve.ScoreAddList | law_as_code_chatbot/src/lib/graph/nodes/retrieve.ts:51-58 | A list adds to each id the contributions of its occurrences. |
| Retrieve.FuseScore | law_as_code_chatbot/src/lib/graph/nodes/retrieve.ts:50-68 | An id's fused score sums weightA/(k+r+1) over its ranks r in list A, plus weightB/(k+r+1) over its ranks in list B. |
| Retrieve.EntryScores | law_as_code_chatbot/src/lib/graph/nodes/retrieve.ts:48-68 | Every map entry holds the fused score of its id. |
| Retrieve.RRFOrder | law_as_code_chatbot/src/lib/graph/nodes/retrieve.ts:70-73 | The output is in non-increasing fused score. Equal scores keep the map's first-seen order, so list A's ids come before new ids from list B. |
| Retrieve.FirstDocSpec | law_as_code_chatbot/src/lib/graph/nodes/retrieve.ts:51-55 | A list has a first document with an id iff the id occurs in it, and that document is at the id's first position. |
| Retrieve.DocAddScore | law_as_code_chatbot/src/lib/graph/nodes/retrieve.ts:53-55 | A step stores its document only for an id not yet in the map. |
| Retrieve.DocAddList | law_as_code_chatbot/src/lib/graph/nodes/retrieve.ts:51-58 | After a list, an id keeps its earlier document, or else gets its first document in the list. |
| Retrieve.FusedDoc | law_as_code_chatbot/src/lib/graph/nodes/retrieve.ts:48-68 | A map entry holds the first document seen with its id, looking at list A first. |
| Retrieve.RRFKeepsFirstDoc | law_as_code_chatbot/src/lib/graph/nodes/retrieve.ts:47-75 | Each output document is the first one seen with its id: from list A when the id is there, otherwise from list B. |
| Retrieve.ContributionDecreases | law_as_code_chatbot/src/lib/graph/nodes/retrieve.ts:57 | With a positive weight, a worse rank gives a smaller positive contribution. |
| Retrieve.OccurrencesDistinct | law_as_code_chatbot/src/lib/graph/nodes/retrieve.ts:51-58 | In a list without repeated ids, an id contributes once, at its rank, or nothing. |
| Retrieve.OccurrencesBelowTop | law_as_code_chatbot/src/lib/graph/nodes/retrieve.ts:51-58 | In such a list, any id other than the top one contributes less than the top rank does. |
| Retrieve.TopOfBothIsFirst | law_as_code_chatbot/src/lib/graph/nodes/retrieve.ts:47-75 | With distinct ids in each list and positive weights, an id ranked first in both lists is first in the output. |
| Retrieve.Blocks | law_as_code_chatbot/src/lib/graph/nodes/retrieve.ts:203-208 | There is one formatted block per context document, in order. |
| Retrieve.References | law_as_code_chatbot/src/lib/graph/nodes/retrieve.ts:211-215 | There is one reference per reference document, in order. |
| Retrieve.PresentSpec | law_as_code_chatbot/src/lib/graph/nodes/retrieve.ts:195-215 | There are min(3, n) references, describing the first fused results. Those are the first documents of the top-15 context, so the references are a prefix of it. |
| Retrieve.TopReference | law_as_code_chatbot/src/lib/graph/nodes/retrieve.ts:189-215 | With k = 60 and weights 1 and 3, a document both searches rank first is the first reference, taken from the vector search's copy. |
| ChatbotTests.DetectDuplicates | law_as_code_chatbot/test/test_chatbot.ts:83-98 | The loop over the responses fills `seen` and `duplicates` as specified. |
| ChatbotTests.SeenSpec | law_as_code_chatbot/test/test_chatbot.ts:87-95 | `seen` holds exactly the normalised texts, each mapped to the id of its earliest response. |
| ChatbotTests.DuplicatesSpec | law_as_code_chatbot/test/test_chatbot.ts:87-95 | With distinct ids: keys are ids. A response is a key iff an earlier response has the same normalised text, and it then maps to the earliest such response's id. |
| ChatbotTests.DuplicatesAt | law_as_code_chatbot/test/test_chatbot.ts:87-95 | With distinct ids: a response is a key iff an earlier response has the same normalised text, and it then maps to the id of the earliest one. |
| ChatbotTests.NoValueIsKey | law_as_code_chatbot/test/test_chatbot.ts:90-95 | No id that a key maps to is itself a key. The first response with a given text is never a key. |
| ChatbotTests.DuplicateCount | law_as_code_chatbot/test/test_chatbot.ts:87-97 | The number of keys is the number of responses minus the number of distinct normalised texts. |
| ChatbotTests.DetectedMeaning | law_as_code_chatbot/test/test_chatbot.ts:83-98 | A response is reported iff an earlier one has the same lower-cased, trimmed text. It is then reported against the earliest one, and the two texts normalise alike. |
| ChatbotTests.TestResult.constructor | law_as_code_chatbot/test/test_chatbot.ts:249-260 | A new result is not a duplicate and names none. |
| ChatbotTests.TestResult.Flag | law_as_code_chatbot/test/test_chatbot.ts:275-278 | A result whose id is a key is flagged with the mapped id. Any other result is left as it was. |
| ChatbotTests.FlagDuplicates | law_as_code_chatbot/test/test_chatbot.ts:274-279 | Every result whose test id is a key is flagged with the mapped id. The others keep their flags. |

## Left out

- JSON Logic evaluation (json-logic-js) is a function parameter. Only the wrapper around it is modelled.
- Regex semantics are left out. Each of the 15 patterns is an opaque regex identifier, and matching is a function parameter returning the matched text and the first capture group.
- `parseFloat` and JavaScript's number-to-string conversion are function parameters.
- Numbers are exact reals, not IEEE doubles. Ratios, weights, reciprocal ranks and rounding are exact, so floating-point rounding error is not modelled.
- `toLowerCase` is modelled on ASCII letters only. Trimming and `\s` use an explicit list of white-space characters, and `\w` is ASCII.
- Records are Dafny maps. JavaScript key order and prototype-inherited keys (for example a variable named `constructor`) are not modelled.
- `String(value)` for objects is an approximation. A value whose conversion would throw is not modelled, so the `catch` branch of `validateVariables` is not modelled either.
- VariableExtractor.ParseInt: does not model a `0x` prefix, because the pattern only captures decimal digits.
- VariableExtractor.Unanswered: its own contract states which variables are kept; their input order is stated by VariableExtractor.UnansweredAppend.
- SearchEngine.WithId: its own contract states which results are kept; their input order is stated by SearchEngine.WithIdAppend.
- SearchEngine.NotKeys: its own contract states which names are kept; their input order is stated by SearchEngine.NotKeysAppend.
- Lists.AtLeast: its own contract states which results are kept; their input order is stated by Lists.AtLeastAppend and Lists.AtLeastKeepsTies.
- SearchEngine.SearchStatutes: option values of `null` are not modelled; options are set or absent.
- Loading statutes from disk or a database, HTTP status codes, `processingTime` and `Date.now()` are left out. So are the `try`/`catch` paths that answer 500 on an unexpected exception, and the logging.
- The analyze route's two early replies (chatbot/backend/app/api/analyze/route.ts:63-73 and 81-91) have the same body. Its `extractedVariables` is `{ variables: {}, extractedVariables: [] }`, with no `suggestions` key. The model gives both replies `EmptyResponse`, whose extraction is `EmptyExtraction`, and tells them apart by an outcome tag.
- AnalyzeRoute.HandleAnalyze: the in-place `analysis.sort` is modelled on a sequence. The summary is computed before the sort, as in the source.
- Statute fields that the core does not read (citations, dates and the like) are left out.
- Retrieve.PerformRRF: k is a natural number. The only call passes 60, so negative or fractional k is not modelled.
- Retrieve.PerformRRF: document ids are strings as returned by `_id.toString()`. `title`, `id`, `content` and `url` are strings or absent.
- The query expansion, the vector and keyword database searches, and the LLM calls in `retrieve` are left out. Only the fusion and the final slicing and formatting are modelled.
- ChatbotTests.DuplicatesSpec: the `responses` Map is a sequence of entries with distinct ids, which is what a Map's entries are. Only the test-result fields the flagging reads and writes are kept.
- The rest of the evaluation script is left out: the HTTP calls to the chatbot, the LLM-based scorers, Langfuse logging, the report file and the summary averages.

## Behaviour worth noting

- Suggestions and follow-up questions test `!variables[name]`, a falsy test, so a variable set to `false`, `0` or `""` still gets its suggestion or question (chatbot/backend/old/lib/variableExtractor.ts:164 and 199).
- The match endpoint answers a missing, empty or whitespace-only scenario with status 400 and the error 'Scenario input is required' (chatbot/backend/old/api/match/route.ts:46-54).
