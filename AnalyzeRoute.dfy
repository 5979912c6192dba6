/** The analyze endpoint: every selected statute is analysed rule block by
    rule block against the merged variable record, the analyses are summarised
    and returned in non-increasing order of confidence, with the follow-up
    questions for the variables the statutes' rules read. */
module AnalyzeRoute {
  import opened JsValues
  import opened JsStrings
  import opened Lists
  import opened RuleEngine
  import opened Statutes
  import opened Requests
  import opened AnalyzeTexts
  import VariableExtractor
  import SearchEngine

  /** One entry of `matchedRules`. */
  datatype RuleAnalysis = RuleAnalysis(
    ruleIndex: nat,
    matched: bool,
    confidence: real,
    requiredVariables: seq<string>,
    providedVariables: seq<string>,
    missingVariables: seq<string>)

  datatype AnalysisResult = AnalysisResult(
    statuteId: Option<string>,
    title: Option<string>,
    applicable: bool,
    confidence: real,
    matchedRules: seq<RuleAnalysis>,
    explanation: string)

  function AnalysisConfidence(a: AnalysisResult): real { a.confidence }

  // ------------------------------------------------------------ one rule block

  /** `requiredVariables.filter(n => variables[n] === undefined || variables[n] === null)` */
  function MissingAmong(names: seq<string>, vars: Vars): (m: seq<string>)
    ensures |m| <= |names|
  {
    if names == [] then []
    else (if !Defined(vars, names[0]) then [names[0]] else []) + MissingAmong(names[1..], vars)
  }

  /** The filter keeps the input order. */
  lemma {:induction false} MissingAmongAppend(a: seq<string>, b: seq<string>, vars: Vars)
    ensures MissingAmong(a + b, vars) == MissingAmong(a, vars) + MissingAmong(b, vars)
  {
    if a == [] {
      assert a + b == b;
    } else {
      MissingAmongAppend(a[1..], b, vars);
      assert (a + b)[0] == a[0] && (a + b)[1..] == a[1..] + b;
      AppendAssoc(if !Defined(vars, a[0]) then [a[0]] else [], MissingAmong(a[1..], vars), MissingAmong(b, vars));
    }
  }

  /** The filter keeps exactly the names without a value, in the order of the
      input: at every split point, the result is the filter of the part before
      it followed by the filter of the part after it. */
  lemma {:induction false} MissingAmongSpec(names: seq<string>, vars: Vars)
    ensures forall x :: x in MissingAmong(names, vars) <==> x in names && !Defined(vars, x)
    ensures forall i :: 0 <= i <= |names| ==>
              MissingAmong(names, vars) == MissingAmong(names[..i], vars) + MissingAmong(names[i..], vars)
  {
    if names != [] {
      MissingAmongSpec(names[1..], vars);
      assert names == [names[0]] + names[1..];
    }
    forall i | 0 <= i <= |names|
      ensures MissingAmong(names, vars) == MissingAmong(names[..i], vars) + MissingAmong(names[i..], vars)
    {
      MissingAmongAppend(names[..i], names[i..], vars);
      assert names[..i] + names[i..] == names;
    }
  }

  /** Every name lands in exactly one of the two filters. */
  lemma {:induction false} PartitionSizes(names: seq<string>, vars: Vars)
    ensures |DefinedAmong(names, vars)| + |MissingAmong(names, vars)| == |names|
  {
    if names != [] {
      PartitionSizes(names[1..], vars);
    }
  }

  /** The entry pushed for the rule block at `index`. */
  function RuleAnalysisOf(eval: Evaluator, rule: JsValue, index: nat, vars: Vars): RuleAnalysis {
    var required := RuleVariables(rule);
    RuleAnalysis(index, ApplyRule(eval, rule, vars), Round2(RuleConfidence(rule, vars)),
                 required, DefinedAmong(required, vars), MissingAmong(required, vars))
  }

  /** The provided and missing variables split the required ones, which are the
      names the rule reads, by whether the record holds a value other than
      null for them; the rounded confidence stays in [0, 1]. */
  lemma RuleAnalysisSpec(eval: Evaluator, rule: JsValue, index: nat, vars: Vars)
    ensures var ra := RuleAnalysisOf(eval, rule, index, vars);
            && ra.ruleIndex == index
            && (ra.matched <==> ApplyRule(eval, rule, vars))
            && 0.0 <= ra.confidence <= 1.0
            && (forall x :: x in ra.requiredVariables <==> Mentions(rule, x))
            && (forall x :: x in ra.providedVariables <==> x in ra.requiredVariables && Defined(vars, x))
            && (forall x :: x in ra.missingVariables <==> x in ra.requiredVariables && !Defined(vars, x))
            && |ra.providedVariables| + |ra.missingVariables| == |ra.requiredVariables|
  {
    var required := RuleVariables(rule);
    RuleVariablesSpec(rule);
    PartitionSizes(required, vars);
    DefinedAmongSpec(required, vars);
    MissingAmongSpec(required, vars);
  }

  /** The body of the `forEach` callback for one rule block; also returns the
      unrounded confidence that feeds `maxConfidence`. */
  method AnalyzeRule(eval: Evaluator, rule: JsValue, index: nat, variables: Vars)
    returns (ra: RuleAnalysis, confidence: real)
    ensures ra == RuleAnalysisOf(eval, rule, index, variables)
    ensures confidence == RuleConfidence(rule, variables)
  {
    var requiredVariables := ExtractVariablesFromRule(rule);
    var providedVariables := DefinedAmong(requiredVariables, variables);
    var missingVariables := MissingAmong(requiredVariables, variables);
    var matched := ApplyRule(eval, rule, variables);
    confidence := if |requiredVariables| > 0 then |providedVariables| as real / |requiredVariables| as real else 0.0;
    ra := RuleAnalysis(index, matched, Round2(confidence), requiredVariables, providedVariables, missingVariables);
  }

  // ---------------------------------------------------------------- one statute

  /** `matchedRules` after the `forEach` over the given rule blocks. */
  function RuleAnalyses(eval: Evaluator, rules: seq<RuleBlock>, vars: Vars): seq<RuleAnalysis> {
    if rules == [] then []
    else RuleAnalyses(eval, rules[..|rules| - 1], vars) + [RuleAnalysisOf(eval, rules[|rules| - 1].rule, |rules| - 1, vars)]
  }

  /** `overallApplicable` after the `forEach`. */
  function AnyMatched(eval: Evaluator, rules: seq<RuleBlock>, vars: Vars): bool {
    if rules == [] then false
    else AnyMatched(eval, rules[..|rules| - 1], vars) || ApplyRule(eval, rules[|rules| - 1].rule, vars)
  }

  /** `maxConfidence` after the `forEach`, starting from 0. */
  function MaxRatio(rules: seq<RuleBlock>, vars: Vars): real {
    if rules == [] then 0.0
    else
      var prev := MaxRatio(rules[..|rules| - 1], vars);
      var c := RuleConfidence(rules[|rules| - 1].rule, vars);
      if prev > c then prev else c
  }

  /** `matchedRules.filter(r => r.matched).length` */
  function MatchedCount(ras: seq<RuleAnalysis>): nat {
    if ras == [] then 0 else MatchedCount(ras[..|ras| - 1]) + (if ras[|ras| - 1].matched then 1 else 0)
  }

  function AppliesText(matchedCount: nat, total: nat): string {
    AppliesPrefix + NatToString(matchedCount) + " of " + NatToString(total) + AppliesSuffix
  }

  function PartialText(percent: nat): string {
    PartialPrefix + NatToString(percent) + PartialSuffix
  }

  /** The explanation, in its fixed order of precedence. */
  function Explanation(applicable: bool, matchedCount: nat, total: nat, maxConfidence: real): string {
    if applicable then AppliesText(matchedCount, total)
    else if maxConfidence > 0.5 then PartialText(MathRound(maxConfidence * 100.0) as nat)
    else DoesNotApply
  }

  /** The result of `analyzeStatute`. */
  function Analysis(eval: Evaluator, st: Statute, vars: Vars): AnalysisResult {
    var ras := RuleAnalyses(eval, st.rules, vars);
    var applicable := AnyMatched(eval, st.rules, vars);
    var maxConfidence := if |st.rules| > 0 then MaxRatio(st.rules, vars) else 0.1;
    AnalysisResult(st.id, st.title, applicable, Round2(maxConfidence), ras,
                   Explanation(applicable, MatchedCount(ras), |ras|, maxConfidence))
  }

  /** `analyzeStatute` */
  method AnalyzeStatute(eval: Evaluator, statute: Statute, variables: Vars) returns (r: AnalysisResult)
    ensures r == Analysis(eval, statute, variables)
  {
    var matchedRules: seq<RuleAnalysis> := [];
    var overallApplicable := false;
    var maxConfidence := 0.0;
    if |statute.rules| > 0 {
      matchedRules, overallApplicable, maxConfidence := AnalyzeRules(eval, statute.rules, variables);
    } else {
      maxConfidence := 0.1;
    }
    var explanation;
    if overallApplicable {
      explanation := AppliesText(MatchedCount(matchedRules), |matchedRules|);
    } else if maxConfidence > 0.5 {
      explanation := PartialText(MathRound(maxConfidence * 100.0) as nat);
    } else {
      explanation := DoesNotApply;
    }
    r := AnalysisResult(statute.id, statute.title, overallApplicable, Round2(maxConfidence), matchedRules, explanation);
  }

  /** The `forEach` of `analyzeStatute` over the rule blocks. */
  method AnalyzeRules(eval: Evaluator, rules: seq<RuleBlock>, variables: Vars)
    returns (matchedRules: seq<RuleAnalysis>, overallApplicable: bool, maxConfidence: real)
    ensures matchedRules == RuleAnalyses(eval, rules, variables)
    ensures overallApplicable == AnyMatched(eval, rules, variables)
    ensures maxConfidence == MaxRatio(rules, variables)
  {
    matchedRules, overallApplicable, maxConfidence := [], false, 0.0;
    for index := 0 to |rules|
      invariant matchedRules == RuleAnalyses(eval, rules[..index], variables)
      invariant overallApplicable == AnyMatched(eval, rules[..index], variables)
      invariant maxConfidence == MaxRatio(rules[..index], variables)
    {
      assert rules[..index + 1][..index] == rules[..index];
      var ra, confidence := AnalyzeRule(eval, rules[index].rule, index, variables);
      if ra.matched {
        overallApplicable := true;
      }
      maxConfidence := if maxConfidence > confidence then maxConfidence else confidence;
      matchedRules := matchedRules + [ra];
    }
    assert rules[..|rules|] == rules;
  }

  lemma {:induction false} RuleAnalysesLength(eval: Evaluator, rules: seq<RuleBlock>, vars: Vars)
    ensures |RuleAnalyses(eval, rules, vars)| == |rules|
  {
    if rules != [] {
      RuleAnalysesLength(eval, rules[..|rules| - 1], vars);
    }
  }

  /** Entry i of `matchedRules` is the analysis of rule block i. */
  lemma {:induction false} RuleAnalysisAt(eval: Evaluator, rules: seq<RuleBlock>, vars: Vars, i: int)
    requires 0 <= i < |rules|
    ensures |RuleAnalyses(eval, rules, vars)| == |rules|
    ensures RuleAnalyses(eval, rules, vars)[i] == RuleAnalysisOf(eval, rules[i].rule, i, vars)
  {
    var p := rules[..|rules| - 1];
    RuleAnalysesLength(eval, p, vars);
    if i < |p| {
      RuleAnalysisAt(eval, p, vars, i);
      assert rules[i] == p[i];
    }
  }

  lemma RuleAnalysesIndex(eval: Evaluator, rules: seq<RuleBlock>, vars: Vars)
    ensures |RuleAnalyses(eval, rules, vars)| == |rules|
    ensures forall i :: 0 <= i < |rules| ==> RuleAnalyses(eval, rules, vars)[i] == RuleAnalysisOf(eval, rules[i].rule, i, vars)
  {
    RuleAnalysesLength(eval, rules, vars);
    forall i | 0 <= i < |rules| ensures RuleAnalyses(eval, rules, vars)[i] == RuleAnalysisOf(eval, rules[i].rule, i, vars) {
      RuleAnalysisAt(eval, rules, vars, i);
    }
  }

  lemma {:induction false} AnyMatchedSpec(eval: Evaluator, rules: seq<RuleBlock>, vars: Vars)
    ensures AnyMatched(eval, rules, vars) <==> exists i :: 0 <= i < |rules| && ApplyRule(eval, rules[i].rule, vars)
    ensures AnyMatched(eval, rules, vars) <==> MatchedCount(RuleAnalyses(eval, rules, vars)) > 0
  {
    if rules != [] {
      var p := rules[..|rules| - 1];
      AnyMatchedSpec(eval, p, vars);
      assert forall i :: 0 <= i < |p| ==> p[i] == rules[i];
      if exists i :: 0 <= i < |rules| && ApplyRule(eval, rules[i].rule, vars) {
        var i :| 0 <= i < |rules| && ApplyRule(eval, rules[i].rule, vars);
        if i < |p| {
          assert ApplyRule(eval, p[i].rule, vars);
        }
      }
    }
  }

  lemma {:induction false} MatchedCountBound(ras: seq<RuleAnalysis>)
    ensures MatchedCount(ras) <= |ras|
  {
    if ras != [] {
      MatchedCountBound(ras[..|ras| - 1]);
    }
  }

  lemma {:induction false} MaxRatioBounds(rules: seq<RuleBlock>, vars: Vars)
    ensures 0.0 <= MaxRatio(rules, vars) <= 1.0
  {
    if rules != [] {
      MaxRatioBounds(rules[..|rules| - 1], vars);
    }
  }

  /** No rule's confidence exceeds `maxConfidence`. */
  lemma {:induction false} MaxRatioUpper(rules: seq<RuleBlock>, vars: Vars, i: int)
    requires 0 <= i < |rules|
    ensures RuleConfidence(rules[i].rule, vars) <= MaxRatio(rules, vars)
  {
    var p := rules[..|rules| - 1];
    if i < |p| {
      assert rules[i] == p[i];
      MaxRatioUpper(p, vars, i);
    }
  }

  /** `maxConfidence` is some rule's confidence. */
  lemma {:induction false} MaxRatioAttained(rules: seq<RuleBlock>, vars: Vars)
    requires rules != []
    ensures exists i :: 0 <= i < |rules| && RuleConfidence(rules[i].rule, vars) == MaxRatio(rules, vars)
  {
    var p := rules[..|rules| - 1];
    if p != [] && MaxRatio(p, vars) > RuleConfidence(rules[|rules| - 1].rule, vars) {
      MaxRatioAttained(p, vars);
      var i :| 0 <= i < |p| && RuleConfidence(p[i].rule, vars) == MaxRatio(p, vars);
      assert rules[i] == p[i];
    } else {
      assert RuleConfidence(rules[|rules| - 1].rule, vars) == MaxRatio(rules, vars);
    }
  }

  /** `maxConfidence` is the greatest rule confidence, and one of them. */
  lemma {:induction false} MaxRatioSpec(rules: seq<RuleBlock>, vars: Vars)
    ensures 0.0 <= MaxRatio(rules, vars) <= 1.0
    ensures forall i :: 0 <= i < |rules| ==> RuleConfidence(rules[i].rule, vars) <= MaxRatio(rules, vars)
    ensures rules != [] ==> exists i :: 0 <= i < |rules| && RuleConfidence(rules[i].rule, vars) == MaxRatio(rules, vars)
  {
    if rules != [] {
      var p := rules[..|rules| - 1];
      MaxRatioSpec(p, vars);
      assert forall i :: 0 <= i < |p| ==> p[i] == rules[i];
      if p != [] && MaxRatio(p, vars) > RuleConfidence(rules[|rules| - 1].rule, vars) {
        var i :| 0 <= i < |p| && RuleConfidence(p[i].rule, vars) == MaxRatio(p, vars);
        assert RuleConfidence(rules[i].rule, vars) == MaxRatio(rules, vars);
      }
    }
  }

  /** The analysis holds one entry per rule block, in order; the statute is
      applicable exactly when some block's rule holds, which is exactly when
      some entry is marked matched. */
  lemma AnalysisRules(eval: Evaluator, st: Statute, vars: Vars)
    ensures var a := Analysis(eval, st, vars);
            && |a.matchedRules| == |st.rules|
            && (forall i :: 0 <= i < |st.rules| ==> a.matchedRules[i] == RuleAnalysisOf(eval, st.rules[i].rule, i, vars))
            && (a.applicable <==> exists i :: 0 <= i < |st.rules| && ApplyRule(eval, st.rules[i].rule, vars))
            && (a.applicable <==> MatchedCount(a.matchedRules) > 0)
            && a.statuteId == st.id && a.title == st.title
  {
    RuleAnalysesIndex(eval, st.rules, vars);
    AnyMatchedSpec(eval, st.rules, vars);
  }

  /** Without rule blocks a statute is not applicable and scores 0.1; with rule
      blocks, its confidence is the greatest rule confidence rounded to two
      decimals. Either way it lies in [0, 1]. */
  lemma AnalysisConfidenceSpec(eval: Evaluator, st: Statute, vars: Vars)
    ensures var a := Analysis(eval, st, vars);
            && 0.0 <= a.confidence <= 1.0
            && (st.rules == [] ==> !a.applicable && a.confidence == 0.1 && a.matchedRules == [] && a.explanation == DoesNotApply)
            && (st.rules != [] ==> a.confidence == Round2(MaxRatio(st.rules, vars)))
            && (forall i :: 0 <= i < |st.rules| ==> RuleConfidence(st.rules[i].rule, vars) - 1.0 / 200.0 < a.confidence)
  {
    MaxRatioSpec(st.rules, vars);
    if st.rules == [] {
      RoundTenth();
    }
  }

  lemma RoundTenth()
    ensures Round2(0.1) == 0.1
  {
    assert MathRound(0.1 * 100.0) == 10;
  }

  /** A rule holding does not raise the confidence: it is the same whatever
      the rules evaluate to. */
  lemma ConfidenceIgnoresEvaluation(e1: Evaluator, e2: Evaluator, st: Statute, vars: Vars)
    ensures Analysis(e1, st, vars).confidence == Analysis(e2, st, vars).confidence
  {
  }

  /** The explanation names the matched rule count when some rule holds, and
      says the statute does not appear to apply when no rule holds and no
      rule's confidence exceeds one half. */
  lemma ExplanationSpec(eval: Evaluator, st: Statute, vars: Vars)
    ensures var a := Analysis(eval, st, vars);
            && (a.applicable ==> a.explanation == AppliesText(MatchedCount(a.matchedRules), |st.rules|))
            && (!a.applicable && (forall i :: 0 <= i < |st.rules| ==> RuleConfidence(st.rules[i].rule, vars) <= 0.5) ==>
                  a.explanation == DoesNotApply)
  {
    RuleAnalysesLength(eval, st.rules, vars);
    if st.rules != [] {
      MaxRatioAttained(st.rules, vars);
    }
  }

  /** When no rule holds but rule i's confidence exceeds one half, the
      explanation is the partial match with the greatest confidence as a
      rounded percentage. */
  lemma ExplanationPartial(eval: Evaluator, st: Statute, vars: Vars, i: int)
    requires 0 <= i < |st.rules| && RuleConfidence(st.rules[i].rule, vars) > 0.5
    ensures !Analysis(eval, st, vars).applicable ==>
              Analysis(eval, st, vars).explanation == PartialText(MathRound(MaxRatio(st.rules, vars) * 100.0) as nat)
  {
    MaxRatioUpper(st.rules, vars, i);
  }

  // -------------------------------------------------------------------- summary

  datatype MostLikelyStatute = MostLikelyStatute(id: Option<string>, title: Option<string>, confidence: real)

  datatype Summary = Summary(
    totalStatutes: nat,
    applicableStatutes: nat,
    averageConfidence: real,
    mostLikelyStatute: Option<MostLikelyStatute>)

  /** `analysis.filter(a => a.applicable).length` */
  function ApplicableCount(analysis: seq<AnalysisResult>): nat {
    if analysis == [] then 0
    else ApplicableCount(analysis[..|analysis| - 1]) + (if analysis[|analysis| - 1].applicable then 1 else 0)
  }

  /** `analysis.reduce((sum, a) => sum + a.confidence, 0)` */
  function TotalConfidence(analysis: seq<AnalysisResult>): real {
    if analysis == [] then 0.0
    else TotalConfidence(analysis[..|analysis| - 1]) + analysis[|analysis| - 1].confidence
  }

  /** The `reduce` that picks `mostLikelyStatute`: the running best is replaced
      only by a strictly greater confidence. */
  function MostLikely(analysis: seq<AnalysisResult>): Option<AnalysisResult> {
    if analysis == [] then None
    else
      var best := MostLikely(analysis[..|analysis| - 1]);
      var current := analysis[|analysis| - 1];
      if best.None? || current.confidence > best.value.confidence then Some(current) else best
  }

  /** The summary block of `handleAnalyzeRequest`. */
  function Summarize(analysis: seq<AnalysisResult>): Summary {
    var average := if |analysis| > 0 then TotalConfidence(analysis) / |analysis| as real else 0.0;
    Summary(|analysis|, ApplicableCount(analysis), Round2(average),
            match MostLikely(analysis)
            case None => None
            case Some(a) => Some(MostLikelyStatute(a.statuteId, a.title, a.confidence)))
  }

  /** No analysis before k reaches the confidence of analysis k, and none
      after exceeds it. */
  ghost predicate FirstGreatest(analysis: seq<AnalysisResult>, k: int)
    requires 0 <= k < |analysis|
  {
    && (forall j :: 0 <= j < k ==> analysis[j].confidence < analysis[k].confidence)
    && (forall j :: 0 <= j < |analysis| ==> analysis[j].confidence <= analysis[k].confidence)
  }

  /** The most likely statute is the first one whose confidence is not
      exceeded by any other; there is one exactly when something was analysed. */
  lemma {:induction false} MostLikelySpec(analysis: seq<AnalysisResult>)
    ensures MostLikely(analysis).Some? <==> analysis != []
    ensures MostLikely(analysis).Some? ==>
              exists k :: 0 <= k < |analysis| && analysis[k] == MostLikely(analysis).value && FirstGreatest(analysis, k)
  {
    if analysis != [] {
      var p, current := analysis[..|analysis| - 1], analysis[|analysis| - 1];
      MostLikelySpec(p);
      if p == [] {
        assert FirstGreatest(analysis, 0);
      } else {
        var k :| 0 <= k < |p| && p[k] == MostLikely(p).value && FirstGreatest(p, k);
        assert analysis[k] == p[k];
        if current.confidence > p[k].confidence {
          forall j | 0 <= j < |analysis| ensures analysis[j].confidence <= current.confidence {
            if j < |p| {
              assert analysis[j] == p[j];
            }
          }
          assert FirstGreatest(analysis, |p|);
        } else {
          forall j | 0 <= j < |analysis| ensures analysis[j].confidence <= analysis[k].confidence
                                            && (j < k ==> analysis[j].confidence < analysis[k].confidence) {
            if j < |p| {
              assert analysis[j] == p[j];
            }
          }
          assert FirstGreatest(analysis, k);
        }
      }
    }
  }

  lemma {:induction false} ApplicableCountSpec(analysis: seq<AnalysisResult>)
    ensures ApplicableCount(analysis) <= |analysis|
    ensures ApplicableCount(analysis) == 0 <==> forall i :: 0 <= i < |analysis| ==> !analysis[i].applicable
  {
    if analysis != [] {
      var p := analysis[..|analysis| - 1];
      ApplicableCountSpec(p);
      assert forall i :: 0 <= i < |p| ==> p[i] == analysis[i];
    }
  }

  lemma {:induction false} TotalConfidenceBounds(analysis: seq<AnalysisResult>)
    requires forall i :: 0 <= i < |analysis| ==> 0.0 <= analysis[i].confidence <= 1.0
    ensures 0.0 <= TotalConfidence(analysis) <= |analysis| as real
  {
    if analysis != [] {
      TotalConfidenceBounds(analysis[..|analysis| - 1]);
    }
  }

  /** The summary counts what was analysed and what applies, averages to 0
      over nothing and into [0, 1] over confidences in [0, 1]. */
  lemma SummarySpec(analysis: seq<AnalysisResult>)
    ensures Summarize(analysis).totalStatutes == |analysis|
    ensures Summarize(analysis).applicableStatutes <= Summarize(analysis).totalStatutes
    ensures analysis == [] ==> Summarize(analysis).averageConfidence == 0.0 && Summarize(analysis).mostLikelyStatute.None?
    ensures (forall i :: 0 <= i < |analysis| ==> 0.0 <= analysis[i].confidence <= 1.0) ==>
              0.0 <= Summarize(analysis).averageConfidence <= 1.0
  {
    ApplicableCountSpec(analysis);
    if analysis == [] {
      assert MathRound(0.0) == 0;
    }
    if forall i :: 0 <= i < |analysis| ==> 0.0 <= analysis[i].confidence <= 1.0 {
      TotalConfidenceBounds(analysis);
      if analysis != [] {
        RatioBound(TotalConfidence(analysis), |analysis| as real);
      }
    }
  }

  // ---------------------------------------------------------------- the request

  datatype AnalyzeRequest = AnalyzeRequest(
    scenarioInput: Option<string>,
    variables: Option<Vars>,
    statuteIds: Option<seq<string>>)

  /** The `extractedVariables` field of a reply: the whole extraction result of
      a completed analysis, or the `{ variables: {}, extractedVariables: [] }`
      of an early reply, which has no `suggestions` key. */
  datatype ReplyExtraction = Extracted(result: VariableExtractor.ExtractionResult) | EmptyExtraction

  datatype AnalyzeResponse = AnalyzeResponse(
    analysis: seq<AnalysisResult>,
    extractedVariables: ReplyExtraction,
    followUpQuestions: seq<string>,
    summary: Summary)

  /** Which branch of the handler answered: a blank scenario (status 400), an
      empty statute corpus (status 500) or a completed analysis (status 200). */
  datatype Outcome = InputRequired | NoStatutes | Analyzed

  datatype AnalyzeReply = AnalyzeReply(outcome: Outcome, body: AnalyzeResponse)

  /** The body both rejections answer with. */
  const EmptyResponse: AnalyzeResponse :=
    AnalyzeResponse([], EmptyExtraction, [], Summary(0, 0, 0.0, None))

  /** `allStatutes.filter(s => s.id && statuteIds.includes(s.id))` */
  function WithListedId(statutes: seq<Statute>, ids: seq<string>): (r: seq<Statute>)
    ensures forall i :: 0 <= i < |r| ==> r[i] in statutes && HasId(r[i]) && r[i].id.value in ids
    ensures forall i :: 0 <= i < |statutes| && HasId(statutes[i]) && statutes[i].id.value in ids ==> statutes[i] in r
  {
    if statutes == [] then []
    else (if HasId(statutes[0]) && statutes[0].id.value in ids then [statutes[0]] else []) + WithListedId(statutes[1..], ids)
  }

  /** The statutes analysed: with a non-empty id list only the listed ones,
      otherwise all. */
  function SelectStatutes(all: seq<Statute>, statuteIds: Option<seq<string>>): seq<Statute> {
    if statuteIds.Some? && |statuteIds.value| > 0 then WithListedId(all, statuteIds.value) else all
  }

  /** One `analyzeStatute` per statute, in statute order. */
  function Analyses(eval: Evaluator, statutes: seq<Statute>, vars: Vars): (r: seq<AnalysisResult>)
    ensures |r| == |statutes|
    ensures forall i :: 0 <= i < |statutes| ==> r[i] == Analysis(eval, statutes[i], vars)
  {
    seq(|statutes|, i requires 0 <= i < |statutes| => Analysis(eval, statutes[i], vars))
  }

  /** The reply of `handleAnalyzeRequest` for the loaded statutes. */
  function Analyze(eval: Evaluator, m: VariableExtractor.Matcher, req: AnalyzeRequest, allStatutes: seq<Statute>): AnalyzeReply {
    if Blank(req.scenarioInput) then AnalyzeReply(InputRequired, EmptyResponse)
    else if allStatutes == [] then AnalyzeReply(NoStatutes, EmptyResponse)
    else
      var statutes := SelectStatutes(allStatutes, req.statuteIds);
      var extraction := VariableExtractor.Extract(m, req.scenarioInput.value);
      var finalVariables := MergeVariables(extraction.variables, req.variables.GetOr(map[]));
      var analysis := Analyses(eval, statutes, finalVariables);
      var followUps := VariableExtractor.FollowUps(finalVariables, SearchEngine.StatuteVariables(statutes));
      AnalyzeReply(Analyzed, AnalyzeResponse(SortDesc(analysis, AnalysisConfidence), Extracted(extraction), followUps, Summarize(analysis)))
  }

  /** `handleAnalyzeRequest`, given the loaded statutes: a blank scenario and
      an empty corpus are rejected; otherwise one analysis per selected statute
      comes back, in non-increasing order of confidence. */
  method HandleAnalyze(eval: Evaluator, m: VariableExtractor.Matcher, req: AnalyzeRequest, allStatutes: seq<Statute>)
    returns (reply: AnalyzeReply)
    ensures reply == Analyze(eval, m, req, allStatutes)
    ensures reply.outcome == InputRequired <==> Blank(req.scenarioInput)
    ensures reply.outcome == NoStatutes <==> !Blank(req.scenarioInput) && allStatutes == []
    ensures reply.outcome != Analyzed ==> reply.body == EmptyResponse
    ensures reply.outcome == Analyzed ==>
              && reply.body.extractedVariables == Extracted(VariableExtractor.Extract(m, req.scenarioInput.value))
              && multiset(reply.body.analysis) == multiset(Analyses(eval, SelectStatutes(allStatutes, req.statuteIds), MergeVariables(VariableExtractor.Extract(m, req.scenarioInput.value).variables, req.variables.GetOr(map[]))))
              && SortedDesc(reply.body.analysis, AnalysisConfidence)
              && |reply.body.followUpQuestions| <= 5
  {
    if Blank(req.scenarioInput) {
      return AnalyzeReply(InputRequired, EmptyResponse);
    }
    if allStatutes == [] {
      return AnalyzeReply(NoStatutes, EmptyResponse);
    }
    var statutes := SelectStatutes(allStatutes, req.statuteIds);
    var extractionResult := VariableExtractor.ExtractVariablesFromInput(m, req.scenarioInput.value);
    var finalVariables := MergeVariables(extractionResult.variables, req.variables.GetOr(map[]));
    var analysis := AnalyzeAll(eval, statutes, finalVariables);
    var allVariables := SearchEngine.StatuteVariables(statutes);
    var followUpQuestions := VariableExtractor.GenerateFollowUpQuestions(finalVariables, allVariables);
    var summary := Summarize(analysis);
    SortDescSorted(analysis, AnalysisConfidence);
    SortDescPerm(analysis, AnalysisConfidence);
    reply := AnalyzeReply(Analyzed, AnalyzeResponse(SortDesc(analysis, AnalysisConfidence), Extracted(extractionResult), followUpQuestions, summary));
  }

  /** The loop of `handleAnalyzeRequest` over the selected statutes. */
  method AnalyzeAll(eval: Evaluator, statutes: seq<Statute>, variables: Vars) returns (analysis: seq<AnalysisResult>)
    ensures analysis == Analyses(eval, statutes, variables)
  {
    analysis := [];
    for i := 0 to |statutes|
      invariant analysis == Analyses(eval, statutes[..i], variables)
    {
      var result := AnalyzeStatute(eval, statutes[i], variables);
      AnalysesSnoc(eval, statutes, i, variables, result);
      analysis := analysis + [result];
    }
    assert statutes[..|statutes|] == statutes;
  }

  /** One more statute appends its analysis. */
  lemma AnalysesSnoc(eval: Evaluator, statutes: seq<Statute>, i: int, vars: Vars, result: AnalysisResult)
    requires 0 <= i < |statutes| && result == Analysis(eval, statutes[i], vars)
    ensures Analyses(eval, statutes[..i + 1], vars) == Analyses(eval, statutes[..i], vars) + [result]
  {
    var a, b := Analyses(eval, statutes[..i + 1], vars), Analyses(eval, statutes[..i], vars) + [result];
    forall k | 0 <= k < |a| ensures a[k] == b[k] {
      assert statutes[..i + 1][k] == statutes[k];
      if k < i {
        assert statutes[..i][k] == statutes[k];
      }
    }
  }

  /** With a non-empty id list, every analysed statute is listed and has an id,
      and every listed statute with an id is analysed. */
  lemma SelectStatutesSpec(all: seq<Statute>, ids: seq<string>)
    requires ids != []
    ensures forall s :: s in SelectStatutes(all, Some(ids)) ==> s in all && HasId(s) && s.id.value in ids
    ensures forall s :: s in all && HasId(s) && s.id.value in ids ==> s in SelectStatutes(all, Some(ids))
  {
    var r := SelectStatutes(all, Some(ids));
    forall s | s in r ensures s in all && HasId(s) && s.id.value in ids {
      var i :| 0 <= i < |r| && r[i] == s;
    }
    forall s | s in all && HasId(s) && s.id.value in ids ensures s in r {
      var i :| 0 <= i < |all| && all[i] == s;
    }
  }

  /** Every analysis has a confidence in [0, 1]. */
  lemma AnalysesBounded(eval: Evaluator, statutes: seq<Statute>, vars: Vars)
    ensures forall i :: 0 <= i < |statutes| ==> 0.0 <= Analyses(eval, statutes, vars)[i].confidence <= 1.0
  {
    forall i | 0 <= i < |statutes| ensures 0.0 <= Analyses(eval, statutes, vars)[i].confidence <= 1.0 {
      MaxRatioBounds(statutes[i].rules, vars);
    }
  }

  /** The summary is taken over the analyses in statute order, before sorting:
      it counts the selected statutes and every confidence lies in [0, 1]. */
  lemma AnalyzeSummary(eval: Evaluator, m: VariableExtractor.Matcher, req: AnalyzeRequest, allStatutes: seq<Statute>)
    requires Analyze(eval, m, req, allStatutes).outcome == Analyzed
    ensures var body := Analyze(eval, m, req, allStatutes).body;
            && body.summary.totalStatutes == |SelectStatutes(allStatutes, req.statuteIds)| == |body.analysis|
            && 0.0 <= body.summary.averageConfidence <= 1.0
            && forall i :: 0 <= i < |body.analysis| ==> 0.0 <= body.analysis[i].confidence <= 1.0
  {
    var statutes := SelectStatutes(allStatutes, req.statuteIds);
    var extraction := VariableExtractor.Extract(m, req.scenarioInput.value);
    var vars := MergeVariables(extraction.variables, req.variables.GetOr(map[]));
    var analysis := Analyses(eval, statutes, vars);
    AnalysesBounded(eval, statutes, vars);
    SummarySpec(analysis);
    var sorted := SortDesc(analysis, AnalysisConfidence);
    SortDescMembers(analysis, AnalysisConfidence);
    forall i | 0 <= i < |sorted| ensures 0.0 <= sorted[i].confidence <= 1.0 {
      assert sorted[i] in analysis;
    }
  }
}
