/** Statute search: rule matches and partial rule matches from JSON Logic
    evaluation, keyword matches scored by the fields a search term occurs in,
    deduplication by statute id, the confidence threshold, the ordering by
    confidence and the result limit; and the rule variables a record leaves
    unset. */
module SearchEngine {
  import opened JsValues
  import opened JsStrings
  import opened Lists
  import opened RuleEngine
  import opened Statutes
  import opened SearchTerms

  /** `SearchOptions`, each field possibly undefined. */
  datatype SearchOptions = SearchOptions(
    minConfidence: Option<real>,
    maxResults: Option<int>,
    includeKeywordSearch: Option<bool>,
    includeRuleSearch: Option<bool>)

  /** The options once the destructuring defaults are applied. */
  datatype Settings = Settings(minConfidence: real, maxResults: int, includeKeywordSearch: bool, includeRuleSearch: bool)

  function WithDefaults(o: SearchOptions): Settings {
    Settings(o.minConfidence.GetOr(0.1), o.maxResults.GetOr(10),
             o.includeKeywordSearch.GetOr(true), o.includeRuleSearch.GetOr(true))
  }

  // ------------------------------------------------------------- keyword search

  datatype Field = Field(content: string, weight: real)

  /** The four searched fields with their weights. */
  function SearchFields(st: Statute): seq<Field> {
    [Field(st.title.GetOr(""), 3.0), Field(st.text.GetOr(""), 2.0),
     Field(Join(st.keywords, " "), 2.5), Field(st.category.GetOr(""), 1.5)]
  }

  predicate FieldHas(f: Field, term: string) {
    Contains(ToLower(f.content), ToLower(term))
  }

  /** The weight of the first field containing the term, ignoring case. */
  function FirstHit(fields: seq<Field>, term: string): Option<real> {
    if fields == [] then None
    else if FieldHas(fields[0], term) then Some(fields[0].weight)
    else FirstHit(fields[1..], term)
  }

  /** A term scores when some field contains it, and then with the weight of
      the first such field. */
  lemma {:induction false} FirstHitSpec(fields: seq<Field>, term: string)
    ensures FirstHit(fields, term).Some? <==> exists k :: 0 <= k < |fields| && FieldHas(fields[k], term)
    ensures FirstHit(fields, term).Some? ==>
              exists k :: 0 <= k < |fields| && FieldHas(fields[k], term) && FirstHit(fields, term).value == fields[k].weight &&
                          forall k' :: 0 <= k' < k ==> !FieldHas(fields[k'], term)
  {
    if fields != [] && !FieldHas(fields[0], term) {
      FirstHitSpec(fields[1..], term);
      assert forall k :: 0 < k < |fields| ==> fields[k] == fields[1..][k - 1];
    }
  }

  /** The terms found in some field, in order, repeats included. */
  function HitTerms(fields: seq<Field>, terms: seq<string>): seq<string> {
    if terms == [] then []
    else
      var prev := HitTerms(fields, terms[..|terms| - 1]);
      if FirstHit(fields, terms[|terms| - 1]).Some? then prev + [terms[|terms| - 1]] else prev
  }

  /** `totalScore`: the sum over the terms of the weight of their first hit. */
  function TotalScore(fields: seq<Field>, terms: seq<string>): real {
    if terms == [] then 0.0
    else TotalScore(fields, terms[..|terms| - 1]) + FirstHit(fields, terms[|terms| - 1]).GetOr(0.0)
  }

  datatype KeywordResult = KeywordResult(confidence: real, matchedKeywords: seq<string>, explanation: string)

  /** The score of the given terms against the given fields: the total weight
      over three per term, capped at 0.9. */
  function KeywordScore(fields: seq<Field>, terms: seq<string>): KeywordResult {
    var hits := HitTerms(fields, terms);
    var maxPossible := 3.0 * |terms| as real;
    var confidence := if maxPossible > 0.0 then TotalScore(fields, terms) / maxPossible else 0.0;
    KeywordResult(if confidence < 0.9 then confidence else 0.9, Dedup(hits), "Keyword match: " + Join(hits, ", "))
  }

  /** The result of `performKeywordSearch`. */
  function KeywordSearch(st: Statute, input: string): KeywordResult {
    KeywordScore(SearchFields(st), ExtractSearchTerms(input))
  }

  /** `performKeywordSearch` */
  method PerformKeywordSearch(statute: Statute, userInput: string) returns (k: KeywordResult)
    ensures k == KeywordSearch(statute, userInput)
  {
    var searchTerms := ExtractSearchTerms(userInput);
    k := ScoreTerms(SearchFields(statute), searchTerms);
  }

  /** The loop of `performKeywordSearch`: for each term, the first field that
      contains it adds its weight. */
  method ScoreTerms(fields: seq<Field>, searchTerms: seq<string>) returns (k: KeywordResult)
    ensures k == KeywordScore(fields, searchTerms)
  {
    var matchedKeywords: seq<string> := [];
    var totalScore := 0.0;
    var maxPossibleScore := 0.0;
    for i := 0 to |searchTerms|
      invariant matchedKeywords == HitTerms(fields, searchTerms[..i])
      invariant totalScore == TotalScore(fields, searchTerms[..i])
      invariant maxPossibleScore == 3.0 * i as real
    {
      var term := searchTerms[i];
      assert searchTerms[..i + 1][..i] == searchTerms[..i];
      maxPossibleScore := maxPossibleScore + 3.0;
      var j := 0;
      while j < |fields|
        invariant 0 <= j <= |fields|
        invariant FirstHit(fields, term) == FirstHit(fields[j..], term)
        invariant matchedKeywords == HitTerms(fields, searchTerms[..i])
        invariant totalScore == TotalScore(fields, searchTerms[..i])
      {
        if Contains(ToLower(fields[j].content), ToLower(term)) {
          totalScore := totalScore + fields[j].weight;
          matchedKeywords := matchedKeywords + [term];
          break;
        }
        assert fields[j..][1..] == fields[j + 1..];
        j := j + 1;
      }
    }
    assert searchTerms[..|searchTerms|] == searchTerms;
    var confidence := if maxPossibleScore > 0.0 then totalScore / maxPossibleScore else 0.0;
    k := KeywordResult(if confidence < 0.9 then confidence else 0.9, Dedup(matchedKeywords),
                       "Keyword match: " + Join(matchedKeywords, ", "));
  }

  lemma {:induction false} TotalScoreBounds(fields: seq<Field>, terms: seq<string>)
    requires forall k :: 0 <= k < |fields| ==> 0.0 <= fields[k].weight <= 3.0
    ensures 0.0 <= TotalScore(fields, terms) <= 3.0 * |terms| as real
  {
    if terms != [] {
      TotalScoreBounds(fields, terms[..|terms| - 1]);
      FirstHitSpec(fields, terms[|terms| - 1]);
    }
  }

  lemma {:induction false} HitTermsSpec(fields: seq<Field>, terms: seq<string>)
    ensures forall t :: t in HitTerms(fields, terms) ==> t in terms && FirstHit(fields, t).Some?
    ensures forall t :: t in terms && FirstHit(fields, t).Some? ==> t in HitTerms(fields, terms)
  {
    if terms != [] {
      HitTermsSpec(fields, terms[..|terms| - 1]);
      assert terms == terms[..|terms| - 1] + [terms[|terms| - 1]];
    }
  }

  /** With weights of at most three, the score lies between 0 and 0.9 and is 0
      without terms; the matched keywords are the terms some field contains,
      each once. */
  lemma KeywordScoreSpec(fields: seq<Field>, terms: seq<string>)
    requires forall k :: 0 <= k < |fields| ==> 0.0 <= fields[k].weight <= 3.0
    ensures 0.0 <= KeywordScore(fields, terms).confidence <= 0.9
    ensures terms == [] ==> KeywordScore(fields, terms).confidence == 0.0
    ensures NoDup(KeywordScore(fields, terms).matchedKeywords)
    ensures forall t :: t in KeywordScore(fields, terms).matchedKeywords ==> t in terms && FirstHit(fields, t).Some?
    ensures forall t :: t in terms && FirstHit(fields, t).Some? ==> t in KeywordScore(fields, terms).matchedKeywords
  {
    TotalScoreBounds(fields, terms);
    HitTermsSpec(fields, terms);
    DedupSpec(HitTerms(fields, terms));
    if terms != [] {
      RatioBound(TotalScore(fields, terms), 3.0 * |terms| as real);
    }
  }

  /** The keyword confidence of a statute lies between 0 and 0.9 and is 0
      without search terms; the matched keywords are the search terms that
      occur, ignoring case, in the title, text, keywords or category, each
      once. */
  lemma KeywordSearchSpec(st: Statute, input: string)
    ensures 0.0 <= KeywordSearch(st, input).confidence <= 0.9
    ensures ExtractSearchTerms(input) == [] ==> KeywordSearch(st, input).confidence == 0.0
    ensures NoDup(KeywordSearch(st, input).matchedKeywords)
    ensures forall t :: t in KeywordSearch(st, input).matchedKeywords <==>
              t in ExtractSearchTerms(input) && exists k :: 0 <= k < 4 && FieldHas(SearchFields(st)[k], t)
  {
    var fields := SearchFields(st);
    var terms := ExtractSearchTerms(input);
    KeywordScoreSpec(fields, terms);
    forall t ensures FirstHit(fields, t).Some? <==> exists k :: 0 <= k < 4 && FieldHas(fields[k], t) {
      FirstHitSpec(fields, t);
    }
  }

  lemma {:induction false} TotalScoreAllFirst(fields: seq<Field>, terms: seq<string>)
    requires |fields| > 0 && fields[0].weight == 3.0
    requires forall t :: t in terms ==> FieldHas(fields[0], t)
    ensures TotalScore(fields, terms) == 3.0 * |terms| as real
  {
    if terms != [] {
      TotalScoreAllFirst(fields, terms[..|terms| - 1]);
      assert terms[|terms| - 1] in terms;
    }
  }

  /** When every search term occurs in the title, the confidence reaches the cap. */
  lemma TitleHitsEverything(st: Statute, input: string)
    requires ExtractSearchTerms(input) != []
    requires forall t :: t in ExtractSearchTerms(input) ==> Contains(ToLower(st.title.GetOr("")), ToLower(t))
    ensures KeywordSearch(st, input).confidence == 0.9
  {
    var fields := SearchFields(st);
    var terms := ExtractSearchTerms(input);
    TotalScoreAllFirst(fields, terms);
    RatioOne(TotalScore(fields, terms), 3.0 * |terms| as real);
  }

  // ---------------------------------------------------------------- rule search

  /** `names.filter(n => variables[n] !== undefined)`: null counts as present. */
  function PresentAmong(names: seq<string>, vars: Vars): (r: seq<string>)
    ensures forall n :: n in r <==> n in names && n in vars
  {
    if names == [] then []
    else (if names[0] in vars then [names[0]] else []) + PresentAmong(names[1..], vars)
  }

  /** The result pushed for one rule block: a full match when the rule holds, a
      partial match when it does not but at least 70% of its variables are
      provided, nothing otherwise. */
  function RuleBlockResult(eval: Evaluator, st: Statute, rule: JsValue, vars: Vars): Option<SearchResult> {
    var confidence := RuleConfidence(rule, vars);
    var matchedVariables := PresentAmong(RuleVariables(rule), vars);
    if ApplyRule(eval, rule, vars) then
      Some(SearchResult(st, RuleMatch, if confidence > 0.8 then confidence else 0.8, Some(matchedVariables), None,
                        Some("Rule matched based on variables: " + Join(matchedVariables, ", "))))
    else if confidence >= 0.7 then
      Some(SearchResult(st, RuleMatch, confidence * 0.6, Some(matchedVariables), None,
                        Some("Partial rule match (" + NatToString(MathRound(confidence * 100.0)) + "% of variables matched)")))
    else None
  }

  /** A rule that holds scores between 0.8 and 1; one that does not yields a
      result exactly when its confidence is at least 0.7, scored at six tenths of
      it, hence never above 0.6: a full match always outranks a partial one. */
  lemma RuleBlockResultSpec(eval: Evaluator, st: Statute, rule: JsValue, vars: Vars)
    ensures var r := RuleBlockResult(eval, st, rule, vars);
            && (ApplyRule(eval, rule, vars) ==> r.Some? && 0.8 <= r.value.confidence <= 1.0)
            && (!ApplyRule(eval, rule, vars) ==>
                  (r.Some? <==> RuleConfidence(rule, vars) >= 0.7) &&
                  (r.Some? ==> r.value.confidence == 0.6 * RuleConfidence(rule, vars) && 0.42 <= r.value.confidence <= 0.6))
    ensures var r := RuleBlockResult(eval, st, rule, vars);
            r.Some? ==> r.value.statute == st && r.value.matchType == RuleMatch &&
                        r.value.matchedVariables.Some? &&
                        forall n :: n in r.value.matchedVariables.value <==> Mentions(rule, n) && n in vars
  {
    RuleVariablesSpec(rule);
  }

  /** The results of the inner loop over a statute's rule blocks. */
  function RuleResults(eval: Evaluator, st: Statute, rules: seq<RuleBlock>, vars: Vars): seq<SearchResult> {
    if rules == [] then []
    else
      var prev := RuleResults(eval, st, rules[..|rules| - 1], vars);
      match RuleBlockResult(eval, st, rules[|rules| - 1].rule, vars)
      case Some(r) => prev + [r]
      case None => prev
  }

  /** One more rule block appends its result, if any. */
  lemma RuleResultsStep(eval: Evaluator, st: Statute, rules: seq<RuleBlock>, j: int, vars: Vars, r: Option<SearchResult>)
    requires 0 <= j < |rules| && r == RuleBlockResult(eval, st, rules[j].rule, vars)
    ensures RuleResults(eval, st, rules[..j + 1], vars)
         == RuleResults(eval, st, rules[..j], vars) + (if r.Some? then [r.value] else [])
  {
    assert rules[..j + 1][..j] == rules[..j];
  }

  /** The keyword result kept for a statute, if it reaches the threshold. */
  function KeywordResults(st: Statute, input: string, minConfidence: real): seq<SearchResult> {
    var k := KeywordSearch(st, input);
    if k.confidence >= minConfidence then
      [SearchResult(st, KeywordMatch, k.confidence, None, Some(k.matchedKeywords), Some(k.explanation))]
    else []
  }

  function StatuteResults(eval: Evaluator, st: Statute, input: string, vars: Vars, s: Settings): seq<SearchResult> {
    (if s.includeRuleSearch then RuleResults(eval, st, st.rules, vars) else []) +
    (if s.includeKeywordSearch then KeywordResults(st, input, s.minConfidence) else [])
  }

  /** `results` after the loop over the statutes. */
  function RawResults(eval: Evaluator, statutes: seq<Statute>, input: string, vars: Vars, s: Settings): seq<SearchResult> {
    if statutes == [] then []
    else RawResults(eval, statutes[..|statutes| - 1], input, vars, s) + StatuteResults(eval, statutes[|statutes| - 1], input, vars, s)
  }

  /** One more statute appends its rule results, then its keyword result. */
  lemma RawResultsStep(eval: Evaluator, statutes: seq<Statute>, i: int, input: string, vars: Vars, s: Settings,
                       ruleResults: seq<SearchResult>, keywordResults: seq<SearchResult>)
    requires 0 <= i < |statutes|
    requires ruleResults == if s.includeRuleSearch then RuleResults(eval, statutes[i], statutes[i].rules, vars) else []
    requires keywordResults == if s.includeKeywordSearch then KeywordResults(statutes[i], input, s.minConfidence) else []
    ensures RawResults(eval, statutes[..i + 1], input, vars, s)
         == RawResults(eval, statutes[..i], input, vars, s) + ruleResults + keywordResults
  {
    var p := statutes[..i + 1];
    assert p[..|p| - 1] == statutes[..i] && p[|p| - 1] == statutes[i];
    assert StatuteResults(eval, statutes[i], input, vars, s) == ruleResults + keywordResults;
    AppendAssoc(RawResults(eval, statutes[..i], input, vars, s), ruleResults, keywordResults);
  }

  // -------------------------------------------------------------- deduplication

  /** `results.filter(r => r.statute.id)` */
  function WithId(rs: seq<SearchResult>): (r: seq<SearchResult>)
    ensures forall i :: 0 <= i < |r| ==> HasId(r[i].statute) && r[i] in rs
    ensures forall i :: 0 <= i < |rs| && HasId(rs[i].statute) ==> rs[i] in r
  {
    if rs == [] then []
    else
      var prev := WithId(rs[..|rs| - 1]);
      assert forall i :: 0 <= i < |rs| - 1 ==> rs[i] == rs[..|rs| - 1][i];
      if HasId(rs[|rs| - 1].statute) then prev + [rs[|rs| - 1]] else prev
  }

  /** The filter keeps the input order. */
  lemma {:induction false} WithIdAppend(a: seq<SearchResult>, b: seq<SearchResult>)
    ensures WithId(a + b) == WithId(a) + WithId(b)
  {
    if b == [] {
      assert a + b == a;
    } else {
      var q := b[..|b| - 1];
      WithIdAppend(a, q);
      assert (a + b)[..|a + b| - 1] == a + q;
      assert (a + b)[|a + b| - 1] == b[|b| - 1];
    }
  }

  function Deduplicated(rs: seq<SearchResult>): seq<SearchResult> {
    KeepBest(WithId(rs), IdOf, ConfidenceOf)
  }

  /** `deduplicateResults`: results without an id are dropped; per statute id,
      the first result with the strictly highest confidence is kept, in the
      order the ids first occur. */
  method DeduplicateResults(results: seq<SearchResult>) returns (unique: seq<SearchResult>)
    ensures unique == Deduplicated(results)
  {
    unique := [];
    for i := 0 to |results|
      invariant unique == KeepBest(WithId(results[..i]), IdOf, ConfidenceOf)
    {
      var result := results[i];
      assert results[..i + 1][..i] == results[..i];
      if !HasId(result.statute) {
        continue;
      }
      var p := IndexOf(Keys(unique, IdOf), IdOf(result));
      if p < 0 {
        unique := unique + [result];
      } else if result.confidence > unique[p].confidence {
        unique := unique[p := result];
      }
    }
    assert results[..|results|] == results;
  }

  /** Every deduplicated result has an id, no id occurs twice, and each result
      is, among the results for its id, the first with the highest confidence. */
  lemma DeduplicatedSpec(rs: seq<SearchResult>)
    ensures Keys(Deduplicated(rs), IdOf) == Dedup(Keys(WithId(rs), IdOf))
    ensures NoDup(Keys(Deduplicated(rs), IdOf))
    ensures forall r :: r in Deduplicated(rs) ==> HasId(r.statute) && Chosen(WithId(rs), r, IdOf, ConfidenceOf)
    ensures forall r :: r in rs && HasId(r.statute) ==> IdOf(r) in Keys(Deduplicated(rs), IdOf)
  {
    var w := WithId(rs);
    KeepBestKeys(w, IdOf, ConfidenceOf);
    KeepBestChosen(w, IdOf, ConfidenceOf);
    DedupSpec(Keys(w, IdOf));
    forall r | r in Deduplicated(rs) ensures HasId(r.statute) && Chosen(w, r, IdOf, ConfidenceOf) {
      var j :| 0 <= j < |Deduplicated(rs)| && Deduplicated(rs)[j] == r;
      var i :| 0 <= i < |w| && w[i] == r && FirstBest(w, i, IdOf, ConfidenceOf);
    }
    forall r | r in rs && HasId(r.statute) ensures IdOf(r) in Keys(Deduplicated(rs), IdOf) {
      var i :| 0 <= i < |w| && w[i] == r;
      assert Keys(w, IdOf)[i] == IdOf(r);
    }
  }

  // ---------------------------------------------------------------------- search

  /** The result of `searchStatutes`. */
  function Search(eval: Evaluator, statutes: seq<Statute>, input: string, vars: Vars, options: SearchOptions): seq<SearchResult> {
    var s := WithDefaults(options);
    Slice(SortDesc(AtLeast(Deduplicated(RawResults(eval, statutes, input, vars, s)), ConfidenceOf, s.minConfidence),
                   ConfidenceOf), s.maxResults)
  }

  /** The `if`/`else` of the inner loop for one rule block. */
  method MatchRuleBlock(eval: Evaluator, statute: Statute, rule: JsValue, vars: Vars) returns (r: Option<SearchResult>)
    ensures r == RuleBlockResult(eval, statute, rule, vars)
  {
    var names := ExtractVariablesFromRule(rule);
    var matchedVariables := PresentAmong(names, vars);
    var confidence := RuleConfidence(rule, vars);
    if ApplyRule(eval, rule, vars) {
      r := Some(SearchResult(statute, RuleMatch, if confidence > 0.8 then confidence else 0.8, Some(matchedVariables), None,
                             Some("Rule matched based on variables: " + Join(matchedVariables, ", "))));
    } else if confidence >= 0.7 {
      r := Some(SearchResult(statute, RuleMatch, confidence * 0.6, Some(matchedVariables), None,
                             Some("Partial rule match (" + NatToString(MathRound(confidence * 100.0)) + "% of variables matched)")));
    } else {
      r := None;
    }
  }

  /** The output of `searchStatutes` has distinct statute ids, all set, that
      reach the threshold; it comes in non-increasing confidence, results of
      equal confidence in their deduplicated order; it is the top of the
      results that reach the threshold, as many of them as `maxResults`
      allows, and all of them when they fit. */
  lemma SearchResultsSpec(eval: Evaluator, statutes: seq<Statute>, input: string, vars: Vars, options: SearchOptions)
    ensures var out := Search(eval, statutes, input, vars, options);
            && NoDup(Keys(out, IdOf))
            && (forall i :: 0 <= i < |out| ==> HasId(out[i].statute))
            && (forall i :: 0 <= i < |out| ==> out[i].confidence >= WithDefaults(options).minConfidence)
            && SortedDesc(out, ConfidenceOf)
            && (WithDefaults(options).maxResults >= 0 ==> |out| <= WithDefaults(options).maxResults)
    ensures var out := Search(eval, statutes, input, vars, options);
            var unique := Deduplicated(RawResults(eval, statutes, input, vars, WithDefaults(options)));
            forall c :: WithDefaults(options).minConfidence <= c ==>
              WithScore(out, ConfidenceOf, c) <= WithScore(unique, ConfidenceOf, c)
    ensures var out := Search(eval, statutes, input, vars, options);
            var s := WithDefaults(options);
            var kept := AtLeast(Deduplicated(RawResults(eval, statutes, input, vars, s)), ConfidenceOf, s.minConfidence);
            && (s.maxResults >= 0 ==> |out| == if s.maxResults <= |kept| then s.maxResults else |kept|)
            && (forall r, o :: r in kept && r !in out && o in out ==> o.confidence >= r.confidence)
            && (0 <= |kept| <= s.maxResults ==> multiset(out) == multiset(kept))
  {
    var s := WithDefaults(options);
    var rs := RawResults(eval, statutes, input, vars, s);
    DeduplicatedSpec(rs);
    SearchSpec(Deduplicated(rs), s);
  }

  /** `searchStatutes`: the results have distinct statute ids, reach the
      threshold, come in non-increasing confidence, and are the top of the
      results that reach the threshold, at most `maxResults` of them. */
  method SearchStatutes(eval: Evaluator, statutes: seq<Statute>, userInput: string, vars: Vars, options: SearchOptions)
    returns (matches: seq<SearchResult>)
    ensures matches == Search(eval, statutes, userInput, vars, options)
    ensures NoDup(Keys(matches, IdOf))
    ensures forall i :: 0 <= i < |matches| ==> HasId(matches[i].statute)
    ensures forall i :: 0 <= i < |matches| ==> matches[i].confidence >= WithDefaults(options).minConfidence
    ensures SortedDesc(matches, ConfidenceOf)
    ensures WithDefaults(options).maxResults >= 0 ==> |matches| <= WithDefaults(options).maxResults
    ensures var unique := Deduplicated(RawResults(eval, statutes, userInput, vars, WithDefaults(options)));
            forall c :: WithDefaults(options).minConfidence <= c ==>
              WithScore(matches, ConfidenceOf, c) <= WithScore(unique, ConfidenceOf, c)
    ensures var kept := AtLeast(Deduplicated(RawResults(eval, statutes, userInput, vars, WithDefaults(options))),
                                ConfidenceOf, WithDefaults(options).minConfidence);
            && (WithDefaults(options).maxResults >= 0 ==>
                  |matches| == if WithDefaults(options).maxResults <= |kept| then WithDefaults(options).maxResults else |kept|)
            && (forall r, o :: r in kept && r !in matches && o in matches ==> o.confidence >= r.confidence)
            && (0 <= |kept| <= WithDefaults(options).maxResults ==> multiset(matches) == multiset(kept))
  {
    var s := WithDefaults(options);
    var results := CollectResults(eval, statutes, userInput, vars, s);
    var uniqueResults := DeduplicateResults(results);
    matches := Slice(SortDesc(AtLeast(uniqueResults, ConfidenceOf, s.minConfidence), ConfidenceOf), s.maxResults);
    assert matches == Search(eval, statutes, userInput, vars, options);
    SearchResultsSpec(eval, statutes, userInput, vars, options);
  }

  /** The loop of `searchStatutes` over the statutes. */
  method CollectResults(eval: Evaluator, statutes: seq<Statute>, userInput: string, vars: Vars, s: Settings)
    returns (results: seq<SearchResult>)
    ensures results == RawResults(eval, statutes, userInput, vars, s)
  {
    results := [];
    for i := 0 to |statutes|
      invariant results == RawResults(eval, statutes[..i], userInput, vars, s)
    {
      var statute := statutes[i];
      var ruleResults: seq<SearchResult> := [];
      if s.includeRuleSearch {
        ruleResults := MatchRules(eval, statute, vars);
      }
      var keywordResults: seq<SearchResult> := [];
      if s.includeKeywordSearch {
        keywordResults := MatchKeywords(statute, userInput, s.minConfidence);
      }
      RawResultsStep(eval, statutes, i, userInput, vars, s, ruleResults, keywordResults);
      results := results + ruleResults + keywordResults;
    }
    assert statutes[..|statutes|] == statutes;
  }

  /** The keyword search of one statute, kept when it reaches the threshold. */
  method MatchKeywords(statute: Statute, userInput: string, minConfidence: real) returns (results: seq<SearchResult>)
    ensures results == KeywordResults(statute, userInput, minConfidence)
  {
    var keywordMatch := PerformKeywordSearch(statute, userInput);
    results := [];
    if keywordMatch.confidence >= minConfidence {
      results := [SearchResult(statute, KeywordMatch, keywordMatch.confidence, None,
                               Some(keywordMatch.matchedKeywords), Some(keywordMatch.explanation))];
    }
  }

  /** The inner loop over one statute's rule blocks. */
  method MatchRules(eval: Evaluator, statute: Statute, vars: Vars) returns (results: seq<SearchResult>)
    ensures results == RuleResults(eval, statute, statute.rules, vars)
  {
    results := [];
    for j := 0 to |statute.rules|
      invariant results == RuleResults(eval, statute, statute.rules[..j], vars)
    {
      var r := MatchRuleBlock(eval, statute, statute.rules[j].rule, vars);
      RuleResultsStep(eval, statute, statute.rules, j, vars, r);
      if r.Some? {
        results := results + [r.value];
      }
    }
    assert statute.rules[..|statute.rules|] == statute.rules;
  }

  /** The threshold, sort and slice keep the ids distinct and the order. */
  lemma SearchSpec(unique: seq<SearchResult>, s: Settings)
    requires NoDup(Keys(unique, IdOf))
    requires forall r :: r in unique ==> HasId(r.statute)
    ensures var out := Slice(SortDesc(AtLeast(unique, ConfidenceOf, s.minConfidence), ConfidenceOf), s.maxResults);
            && NoDup(Keys(out, IdOf))
            && (forall i :: 0 <= i < |out| ==> HasId(out[i].statute) && out[i].confidence >= s.minConfidence)
            && SortedDesc(out, ConfidenceOf)
            && (s.maxResults >= 0 ==> |out| <= s.maxResults)
    ensures var out := Slice(SortDesc(AtLeast(unique, ConfidenceOf, s.minConfidence), ConfidenceOf), s.maxResults);
            forall c :: s.minConfidence <= c ==> WithScore(out, ConfidenceOf, c) <= WithScore(unique, ConfidenceOf, c)
    ensures var kept := AtLeast(unique, ConfidenceOf, s.minConfidence);
            var out := Slice(SortDesc(kept, ConfidenceOf), s.maxResults);
            && (s.maxResults >= 0 ==> |out| == if s.maxResults <= |kept| then s.maxResults else |kept|)
            && (forall r, o :: r in kept && r !in out && o in out ==> o.confidence >= r.confidence)
            && (0 <= |kept| <= s.maxResults ==> multiset(out) == multiset(kept))
  {
    var kept := AtLeast(unique, ConfidenceOf, s.minConfidence);
    var sorted := SortDesc(kept, ConfidenceOf);
    var out := Slice(sorted, s.maxResults);
    AtLeastDistinct(unique, ConfidenceOf, s.minConfidence, IdOf);
    SortDescDistinct(kept, ConfidenceOf, IdOf);
    SortDescSorted(kept, ConfidenceOf);
    SortDescMembers(kept, ConfidenceOf);
    PrefixKeeps(sorted, out, ConfidenceOf, IdOf);
    forall i | 0 <= i < |out| ensures HasId(out[i].statute) && out[i].confidence >= s.minConfidence {
      assert out[i] == sorted[i] && sorted[i] in sorted;
      var k :| 0 <= k < |kept| && kept[k] == sorted[i];
    }
    forall c | s.minConfidence <= c
      ensures WithScore(out, ConfidenceOf, c) <= WithScore(unique, ConfidenceOf, c)
    {
      WithScorePrefix(out, sorted, ConfidenceOf, c);
      SortDescStable(kept, ConfidenceOf, c);
      AtLeastKeepsTies(unique, ConfidenceOf, s.minConfidence, c);
    }
    TopPrefix(sorted, out, ConfidenceOf);
    SortDescPerm(kept, ConfidenceOf);
    if 0 <= |kept| <= s.maxResults {
      assert out == sorted;
    }
  }

  // ------------------------------------------------------------ rule variables

  /** The names `extractVariablesFromRule` returns for each rule block, in order. */
  function RulesRefs(rules: seq<RuleBlock>): seq<string> {
    if rules == [] then [] else RulesRefs(rules[..|rules| - 1]) + RuleVariables(rules[|rules| - 1].rule)
  }

  /** The same over the rule blocks of all statutes. */
  function StatutesRefs(statutes: seq<Statute>): seq<string> {
    if statutes == [] then [] else StatutesRefs(statutes[..|statutes| - 1]) + RulesRefs(statutes[|statutes| - 1].rules)
  }

  /** Some rule block of the list reads the name x. */
  ghost predicate AnyRuleMentions(rules: seq<RuleBlock>, x: string) {
    exists j :: 0 <= j < |rules| && Mentions(rules[j].rule, x)
  }

  /** Some rule block of some statute reads the name x. */
  ghost predicate SomeRuleMentions(statutes: seq<Statute>, x: string) {
    exists i :: 0 <= i < |statutes| && AnyRuleMentions(statutes[i].rules, x)
  }

  lemma {:induction false} RulesRefsSpec(rules: seq<RuleBlock>, x: string)
    ensures x in RulesRefs(rules) <==> AnyRuleMentions(rules, x)
  {
    if rules != [] {
      var p := rules[..|rules| - 1];
      RulesRefsSpec(p, x);
      RuleVariablesSpec(rules[|rules| - 1].rule);
      if AnyRuleMentions(rules, x) {
        var j :| 0 <= j < |rules| && Mentions(rules[j].rule, x);
        if j < |p| {
          assert p[j] == rules[j];
        }
      }
      if AnyRuleMentions(p, x) {
        var j :| 0 <= j < |p| && Mentions(p[j].rule, x);
        assert rules[j] == p[j];
      }
    }
  }

  lemma {:induction false} StatutesRefsSpec(statutes: seq<Statute>, x: string)
    ensures x in StatutesRefs(statutes) <==> SomeRuleMentions(statutes, x)
  {
    if statutes != [] {
      var p := statutes[..|statutes| - 1];
      var last := statutes[|statutes| - 1];
      StatutesRefsSpec(p, x);
      RulesRefsSpec(last.rules, x);
      if SomeRuleMentions(statutes, x) {
        var i :| 0 <= i < |statutes| && AnyRuleMentions(statutes[i].rules, x);
        if i < |p| {
          assert p[i] == statutes[i];
        }
      }
      if SomeRuleMentions(p, x) {
        var i :| 0 <= i < |p| && AnyRuleMentions(p[i].rules, x);
        assert statutes[i] == p[i];
      }
    }
  }

  /** `Array.from(new Set(statutes.flatMap(s => s.rules.flatMap(r =>
      extractVariablesFromRule(r.rule)))))`: every name some rule reads, once, in
      first-seen order. */
  function StatuteVariables(statutes: seq<Statute>): seq<string> {
    Dedup(StatutesRefs(statutes))
  }

  lemma StatuteVariablesSpec(statutes: seq<Statute>)
    ensures NoDup(StatuteVariables(statutes))
    ensures forall x :: x in StatuteVariables(statutes) <==> SomeRuleMentions(statutes, x)
  {
    DedupSpec(StatutesRefs(statutes));
    forall x ensures x in StatuteVariables(statutes) <==> SomeRuleMentions(statutes, x) {
      StatutesRefsSpec(statutes, x);
    }
  }

  /** `names.filter(v => !Object.keys(vars).includes(v))` */
  function NotKeys(names: seq<string>, vars: Vars): (r: seq<string>)
    ensures forall n :: n in r <==> n in names && n !in vars
    ensures NoDup(names) ==> NoDup(r)
  {
    if names == [] then []
    else (if names[0] !in vars then [names[0]] else []) + NotKeys(names[1..], vars)
  }

  /** The filter keeps the input order. */
  lemma {:induction false} NotKeysAppend(a: seq<string>, b: seq<string>, vars: Vars)
    ensures NotKeys(a + b, vars) == NotKeys(a, vars) + NotKeys(b, vars)
  {
    if a == [] {
      assert a + b == b;
    } else {
      var h := if a[0] !in vars then [a[0]] else [];
      assert (a + b)[0] == a[0] && (a + b)[1..] == a[1..] + b;
      assert NotKeys(a, vars) == h + NotKeys(a[1..], vars);
      assert NotKeys(a + b, vars) == h + NotKeys(a[1..] + b, vars);
      NotKeysAppend(a[1..], b, vars);
      AppendAssoc(h, NotKeys(a[1..], vars), NotKeys(b, vars));
    }
  }

  /** `vars.forEach(v => allVariables.add(v))` */
  method AddAll(allVariables: seq<string>, vs: seq<string>) returns (r: seq<string>)
    ensures r == DedupOnto(allVariables, vs)
  {
    r := allVariables;
    for k := 0 to |vs|
      invariant r == DedupOnto(allVariables, vs[..k])
    {
      assert vs[..k + 1][..k] == vs[..k];
      if vs[k] !in r {
        r := r + [vs[k]];
      }
    }
    assert vs[..|vs|] == vs;
  }

  /** The inner loop over one statute's rule blocks. */
  method AddRulesVariables(allVariables: seq<string>, rules: seq<RuleBlock>) returns (r: seq<string>)
    ensures r == DedupOnto(allVariables, RulesRefs(rules))
  {
    r := allVariables;
    for j := 0 to |rules|
      invariant r == DedupOnto(allVariables, RulesRefs(rules[..j]))
    {
      assert rules[..j + 1][..j] == rules[..j];
      var vs := ExtractVariablesFromRule(rules[j].rule);
      r := AddAll(r, vs);
      DedupOntoAppend(allVariables, RulesRefs(rules[..j]), vs);
    }
    assert rules[..|rules|] == rules;
  }

  /** `suggestMissingVariables`: the names the statutes' rules read that are not
      keys of the current record, each once. */
  method SuggestMissingVariables(statutes: seq<Statute>, currentVariables: Vars) returns (missing: seq<string>)
    ensures missing == NotKeys(StatuteVariables(statutes), currentVariables)
    ensures forall x :: x in missing <==> SomeRuleMentions(statutes, x) && x !in currentVariables
    ensures NoDup(missing)
  {
    var allVariables: seq<string> := [];
    for i := 0 to |statutes|
      invariant allVariables == Dedup(StatutesRefs(statutes[..i]))
    {
      assert statutes[..i + 1][..i] == statutes[..i];
      allVariables := AddRulesVariables(allVariables, statutes[i].rules);
      DedupOntoAppend([], StatutesRefs(statutes[..i]), RulesRefs(statutes[i].rules));
    }
    assert statutes[..|statutes|] == statutes;
    missing := NotKeys(allVariables, currentVariables);
    StatuteVariablesSpec(statutes);
  }
}
