/** Extraction of statute variables from a free-text scenario by a fixed table of
    case-insensitive regular expressions, follow-up questions for the variables
    still unanswered, and coercion of a variable record to a type schema. The
    regular-expression engine is a parameter of the model. */
module VariableExtractor {
  import opened JsValues
  import opened JsStrings
  import opened Lists
  import opened ExtractionTables

  /** What `input.match(regex)` returns for a regex without the `g` flag: the
      text of the first match and its first capture group. */
  datatype RegexMatch = RegexMatch(text: string, group1: Option<string>)

  /** `input.match(new RegExp(regex, "i"))`, None for `null`. */
  type Matcher = (string, string) -> Option<RegexMatch>

  datatype ExtractedVariable = ExtractedVariable(name: string, value: JsValue, confidence: real, source: string)

  datatype ExtractionResult = ExtractionResult(
    variables: Vars,
    extractedVariables: seq<ExtractedVariable>,
    suggestions: seq<string>)


  /** `parseInt(s)` with no radix: leading white space, an optional sign, then
      the longest run of decimal digits; NaN when there is none, and for
      `undefined`. */
  function ParseInt(s: Option<string>): JsValue {
    match s
    case None => JNaN
    case Some(t) => ParseTrimmed(t)
  }

  /** `parseInt` from its first character: white space is skipped, a sign is
      taken once. */
  function ParseTrimmed(s: string): JsValue {
    if s != [] && IsSpace(s[0]) then ParseTrimmed(s[1..])
    else if s != [] && (s[0] == '-' || s[0] == '+') then ParseDigits(s[1..], 0, s[0] == '-', false)
    else ParseDigits(s, 0, false, false)
  }

  /** `parseInt` after the sign: acc is the value of the digits read so far,
      seen whether there was one. */
  function ParseDigits(s: string, acc: nat, negative: bool, seen: bool): JsValue {
    if s != [] && '0' <= s[0] <= '9' then
      ParseDigits(s[1..], 10 * acc + (s[0] as int - '0' as int), negative, true)
    else if !seen then JNaN
    else if negative then JNum(-(acc as real))
    else JNum(acc as real)
  }

  /** Reading a run of digits p leaves their decimal value in the accumulator. */
  lemma {:induction false} ScanDigits(p: string, r: string, negative: bool, seen: bool)
    requires forall i :: 0 <= i < |p| ==> '0' <= p[i] <= '9'
    ensures ParseDigits(p + r, 0, negative, seen)
         == ParseDigits(r, DigitsValue(p), negative, seen || p != [])
  {
    if p == [] {
      assert p + r == r;
    } else {
      var q, c := p[..|p| - 1], p[|p| - 1];
      ScanDigits(q, [c] + r, negative, seen);
      assert p + r == q + ([c] + r);
      assert ([c] + r)[1..] == r;
    }
  }

  /** `parseInt` of a non-empty run of decimal digits is the value of the run,
      leading zeros included. */
  lemma ParseIntOfDigits(g: string)
    requires IsDigitRun(g)
    ensures ParseInt(Some(g)) == JNum(DigitsValue(g) as real)
  {
    assert !IsSpace(g[0]) && g[0] != '-' && g[0] != '+';
    ScanDigits(g, [], false, false);
    assert g + [] == g;
  }

  /** Reading back a printed non-negative integer gives that integer. */
  lemma ParseIntOfNat(n: nat)
    ensures ParseInt(Some(NatToString(n))) == JNum(n as real)
  {
    var s := NatToString(n);
    assert !IsSpace(s[0]) && s[0] != '-' && s[0] != '+';
    ScanDigits(s, [], false, false);
    assert s + [] == s;
    DigitsValueOfNatToString(n);
  }

  function PatternValueOf(p: Pattern, mt: RegexMatch): JsValue {
    match p.value
    case Fixed(v) => v
    case ParsedGroup => ParseInt(mt.group1)
  }

  /** The record the loop over the patterns pushes for a pattern that matched. */
  function Candidate(p: Pattern, mt: RegexMatch): ExtractedVariable {
    ExtractedVariable(p.variable, PatternValueOf(p, mt), p.confidence, mt.text)
  }

  /** The `extractedVariables` list after the loop over the patterns: one record
      per matching pattern, in table order. */
  function Candidates(ps: seq<Pattern>, m: Matcher, input: string): seq<ExtractedVariable> {
    if ps == [] then [] else Head(ps[0], m, input) + Candidates(ps[1..], m, input)
  }

  /** The record pushed for one pattern: one when it matches, none otherwise. */
  function Head(p: Pattern, m: Matcher, input: string): seq<ExtractedVariable> {
    match m(p.regex, input)
    case Some(mt) => [Candidate(p, mt)]
    case None => []
  }

  lemma {:induction false} CandidatesAppend(a: seq<Pattern>, b: seq<Pattern>, m: Matcher, input: string)
    ensures Candidates(a + b, m, input) == Candidates(a, m, input) + Candidates(b, m, input)
  {
    if a == [] {
      assert a + b == b;
    } else {
      CandidatesAppend(a[1..], b, m, input);
      assert (a + b)[0] == a[0] && (a + b)[1..] == a[1..] + b;
      AppendAssoc(Head(a[0], m, input), Candidates(a[1..], m, input), Candidates(b, m, input));
    }
  }

  /** One more pattern adds that pattern's record, if it matches. */
  lemma CandidatesStep(ps: seq<Pattern>, i: nat, m: Matcher, input: string)
    requires i < |ps|
    ensures Candidates(ps[..i + 1], m, input) == Candidates(ps[..i], m, input) + Head(ps[i], m, input)
  {
    assert ps[..i + 1] == ps[..i] + [ps[i]];
    CandidatesAppend(ps[..i], [ps[i]], m, input);
    assert Candidates([ps[i]], m, input) == Head(ps[i], m, input) + Candidates([], m, input);
  }

  /** Every record comes from a pattern of the table, with its name and
      confidence. */
  lemma {:induction false} CandidateOrigin(ps: seq<Pattern>, m: Matcher, input: string, c: ExtractedVariable)
    requires c in Candidates(ps, m, input)
    ensures exists k :: 0 <= k < |ps| && ps[k].variable == c.name && ps[k].confidence == c.confidence
  {
    var rest := Candidates(ps[1..], m, input);
    if c in rest {
      CandidateOrigin(ps[1..], m, input, c);
      var k :| 0 <= k < |ps[1..]| && ps[1..][k].variable == c.name && ps[1..][k].confidence == c.confidence;
      assert ps[k + 1] == ps[1..][k];
    } else {
      assert ps[0].variable == c.name && ps[0].confidence == c.confidence;
    }
  }

  function NameOf(e: ExtractedVariable): string { e.name }

  function ConfidenceOf(e: ExtractedVariable): real { e.confidence }

  /** `variableMap`: per name, the first record with the strictly highest
      confidence, in the order the names were first set. */
  function Resolve(cands: seq<ExtractedVariable>): seq<ExtractedVariable> {
    KeepBest(cands, NameOf, ConfidenceOf)
  }

  /** The `variables` record built beside `variableMap`. */
  function VarsOf(kept: seq<ExtractedVariable>): Vars {
    if kept == [] then map[]
    else VarsOf(kept[..|kept| - 1])[kept[|kept| - 1].name := kept[|kept| - 1].value]
  }

  lemma {:induction false} VarsOfSpec(kept: seq<ExtractedVariable>)
    requires NoDup(Keys(kept, NameOf))
    ensures forall n :: n in VarsOf(kept) <==> n in Keys(kept, NameOf)
    ensures forall j :: 0 <= j < |kept| ==> VarsOf(kept)[kept[j].name] == kept[j].value
  {
    if kept != [] {
      var p, x := kept[..|kept| - 1], kept[|kept| - 1];
      assert kept == p + [x];
      KeysSnoc(p, x, NameOf);
      var ks, kp := Keys(kept, NameOf), Keys(p, NameOf);
      assert kp == ks[..|p|];
      VarsOfSpec(p);
      forall j | 0 <= j < |p| ensures p[j].name != x.name {
        assert ks[j] == p[j].name && ks[|p|] == x.name;
      }
    }
  }

  /** Replacing the record of a name in the map is writing its value into the
      record of variables. */
  lemma VarsOfReplace(kept: seq<ExtractedVariable>, p: int, x: ExtractedVariable)
    requires NoDup(Keys(kept, NameOf)) && 0 <= p < |kept| && kept[p].name == x.name
    ensures VarsOf(kept[p := x]) == VarsOf(kept)[x.name := x.value]
  {
    var t := kept[p := x];
    assert Keys(t, NameOf) == Keys(kept, NameOf);
    VarsOfSpec(kept);
    VarsOfSpec(t);
    var a, b := VarsOf(t), VarsOf(kept)[x.name := x.value];
    forall n ensures n in a <==> n in b {
      if n == x.name {
        assert Keys(kept, NameOf)[p] == n;
      }
    }
    forall n | n in a ensures a[n] == b[n] {
      var j :| 0 <= j < |t| && Keys(t, NameOf)[j] == n;
      if j != p {
        assert Keys(kept, NameOf)[j] != Keys(kept, NameOf)[p];
      }
    }
  }

  /** `Did you mean to specify whether <name with spaces>?` */
  function SuggestionText(name: string): string {
    "Did you mean to specify whether " + UnderscoresToSpaces(name) + "?"
  }

  /** The suggestions pushed for the names whose value is falsy, in order. */
  function SuggestionList(names: seq<string>, vars: Vars): seq<string> {
    if names == [] then []
    else
      var prev := SuggestionList(names[..|names| - 1], vars);
      if Falsy(vars, names[|names| - 1]) then prev + [SuggestionText(names[|names| - 1])] else prev
  }

  /** The suggestions follow the order of the names. */
  lemma {:induction false} SuggestionListAppend(a: seq<string>, b: seq<string>, vars: Vars)
    ensures SuggestionList(a + b, vars) == SuggestionList(a, vars) + SuggestionList(b, vars)
  {
    if b == [] {
      assert a + b == a;
    } else {
      var q := b[..|b| - 1];
      SuggestionListAppend(a, q, vars);
      assert (a + b)[..|a + b| - 1] == a + q;
      assert (a + b)[|a + b| - 1] == b[|b| - 1];
    }
  }

  lemma SuggestionListSplit(names: seq<string>, vars: Vars)
    ensures forall i :: 0 <= i <= |names| ==>
              SuggestionList(names, vars) == SuggestionList(names[..i], vars) + SuggestionList(names[i..], vars)
  {
    forall i | 0 <= i <= |names|
      ensures SuggestionList(names, vars) == SuggestionList(names[..i], vars) + SuggestionList(names[i..], vars)
    {
      SuggestionListAppend(names[..i], names[i..], vars);
      assert names[..i] + names[i..] == names;
    }
  }

  /** One suggestion per common variable without a truthy value, in the order
      of the list: at every split point, the suggestions are those for the
      names before it followed by those for the names after it. */
  lemma {:induction false} SuggestionListSpec(names: seq<string>, vars: Vars)
    ensures forall s :: s in SuggestionList(names, vars) ==>
              exists n :: n in names && Falsy(vars, n) && s == SuggestionText(n)
    ensures forall n :: n in names && Falsy(vars, n) ==> SuggestionText(n) in SuggestionList(names, vars)
    ensures forall i :: 0 <= i <= |names| ==>
              SuggestionList(names, vars) == SuggestionList(names[..i], vars) + SuggestionList(names[i..], vars)
  {
    if names != [] {
      var p := names[..|names| - 1];
      SuggestionListSpec(p, vars);
      assert names == p + [names[|names| - 1]];
    }
    SuggestionListSplit(names, vars);
  }

  function Suggestions(vars: Vars): (r: seq<string>)
    ensures |r| <= 3
  {
    Slice(SuggestionList(CommonVariables, vars), 3)
  }

  /** The result of `extractVariablesFromInput`. */
  function Extract(m: Matcher, input: string): ExtractionResult {
    var kept := Resolve(Candidates(Patterns, m, input));
    ExtractionResult(VarsOf(kept), kept, Suggestions(VarsOf(kept)))
  }

  /** `extractVariablesFromInput`: the loop over the patterns, the loop that
      resolves the matches, and the loop over the common variables. */
  method ExtractVariablesFromInput(m: Matcher, input: string) returns (r: ExtractionResult)
    ensures r == Extract(m, input)
    ensures NoDup(Keys(r.extractedVariables, NameOf))
    ensures forall n :: n in r.variables <==> n in Keys(r.extractedVariables, NameOf)
    ensures forall j :: 0 <= j < |r.extractedVariables| ==>
              r.variables[r.extractedVariables[j].name] == r.extractedVariables[j].value
  {
    var extracted := MatchPatterns(m, input);
    var variables, variableMap := ResolveMatches(extracted);
    var suggestions := SuggestMissing(variables);
    r := ExtractionResult(variables, variableMap, Slice(suggestions, 3));
    KeepBestKeys(extracted, NameOf, ConfidenceOf);
    DedupSpec(Keys(extracted, NameOf));
    VarsOfSpec(variableMap);
  }

  /** The loop over the patterns: a record for each pattern that matches. */
  method MatchPatterns(m: Matcher, input: string) returns (extracted: seq<ExtractedVariable>)
    ensures extracted == Candidates(Patterns, m, input)
  {
    extracted := [];
    var patterns := Patterns;
    for i := 0 to |patterns|
      invariant extracted == Candidates(patterns[..i], m, input)
    {
      var pattern := patterns[i];
      var matches := m(pattern.regex, input);
      CandidatesStep(patterns, i, m, input);
      if matches.Some? {
        var value;
        if pattern.value.ParsedGroup? {
          value := ParseInt(matches.value.group1);
        } else {
          value := pattern.value.v;
        }
        extracted := extracted + [ExtractedVariable(pattern.variable, value, pattern.confidence, matches.value.text)];
      }
    }
    assert patterns[..|patterns|] == patterns;
  }

  /** The loop that keeps, per name, the most confident record in `variableMap`
      (held as the list of its values in key order) and its value in
      `variables`. */
  method ResolveMatches(extracted: seq<ExtractedVariable>) returns (variables: Vars, variableMap: seq<ExtractedVariable>)
    ensures variableMap == Resolve(extracted)
    ensures variables == VarsOf(variableMap)
  {
    variables := map[];
    variableMap := [];
    for i := 0 to |extracted|
      invariant variableMap == KeepBest(extracted[..i], NameOf, ConfidenceOf)
      invariant variables == VarsOf(variableMap)
    {
      KeepBestKeys(extracted[..i], NameOf, ConfidenceOf);
      DedupSpec(Keys(extracted[..i], NameOf));
      assert extracted[..i + 1][..i] == extracted[..i];
      var e := extracted[i];
      var p := IndexOf(Keys(variableMap, NameOf), e.name);
      if p < 0 || e.confidence > variableMap[p].confidence {
        if p >= 0 {
          VarsOfReplace(variableMap, p, e);
          variableMap := variableMap[p := e];
        } else {
          variableMap := variableMap + [e];
        }
        variables := variables[e.name := e.value];
      }
    }
    assert extracted[..|extracted|] == extracted;
  }

  /** The loop over the common variables: a suggestion for each one whose value
      is falsy. */
  method SuggestMissing(variables: Vars) returns (suggestions: seq<string>)
    ensures suggestions == SuggestionList(CommonVariables, variables)
  {
    suggestions := [];
    var common := CommonVariables;
    for i := 0 to |common|
      invariant suggestions == SuggestionList(common[..i], variables)
    {
      assert common[..i + 1][..i] == common[..i];
      var varName := common[i];
      if Falsy(variables, varName) {
        suggestions := suggestions + [SuggestionText(varName)];
      }
    }
    assert common[..|common|] == common;
  }

  /** In the table, a later pattern for a variable is never more confident than
      an earlier one. */
  predicate TableOrdered(ps: seq<Pattern>) {
    forall i, j :: 0 <= i < j < |ps| && ps[i].variable == ps[j].variable ==> ps[i].confidence >= ps[j].confidence
  }

  lemma PatternsOrdered()
    ensures TableOrdered(Patterns)
  {
    var ps := Patterns;
    assert forall k :: 0 <= k < |ps| ==> ps[k].confidence <= 0.9;
    // Below the top confidence, a pattern's only later namesake is the next one.
    forall i, j | 0 <= i < j < |ps| && ps[i].variable == ps[j].variable
      ensures ps[i].confidence >= ps[j].confidence
    {
      if ps[i].confidence < 0.9 {
        assert j == i + 1;
      }
    }
  }

  /** The first pattern in table order that sets `n` and matches, as the record
      it produces. */
  function FirstMatching(ps: seq<Pattern>, m: Matcher, input: string, n: string): Option<ExtractedVariable> {
    if ps == [] then None
    else
      match m(ps[0].regex, input)
      case Some(mt) => if ps[0].variable == n then Some(Candidate(ps[0], mt)) else FirstMatching(ps[1..], m, input, n)
      case None => FirstMatching(ps[1..], m, input, n)
  }

  lemma {:induction false} FirstMatchingIsFirstCandidate(ps: seq<Pattern>, m: Matcher, input: string, n: string)
    ensures var ks := Keys(Candidates(ps, m, input), NameOf);
            var i := IndexOf(ks, n);
            (i < 0 <==> FirstMatching(ps, m, input, n).None?) &&
            (0 <= i ==> Candidates(ps, m, input)[i] == FirstMatching(ps, m, input, n).value)
  {
    if ps != [] {
      FirstMatchingIsFirstCandidate(ps[1..], m, input, n);
      var rest := Candidates(ps[1..], m, input);
      match m(ps[0].regex, input)
      case Some(mt) =>
        var c := Candidate(ps[0], mt);
        assert Candidates(ps, m, input) == [c] + rest;
        KeysCons(c, rest, NameOf);
        IndexOfCons(c.name, Keys(rest, NameOf), n);
      case None =>
        assert Candidates(ps, m, input) == rest;
    }
  }

  /** Later records for a name never have a higher confidence. */
  predicate NonIncreasingPerName(cs: seq<ExtractedVariable>) {
    forall i, j :: 0 <= i < j < |cs| && cs[i].name == cs[j].name ==> cs[i].confidence >= cs[j].confidence
  }

  lemma NonIncreasingCons(c: ExtractedVariable, rest: seq<ExtractedVariable>)
    requires NonIncreasingPerName(rest)
    requires forall j :: 0 <= j < |rest| && rest[j].name == c.name ==> c.confidence >= rest[j].confidence
    ensures NonIncreasingPerName([c] + rest)
  {
    var cs := [c] + rest;
    assert forall j :: 0 < j < |cs| ==> cs[j] == rest[j - 1];
  }

  lemma {:induction false} CandidatesOrdered(ps: seq<Pattern>, m: Matcher, input: string)
    requires TableOrdered(ps)
    ensures NonIncreasingPerName(Candidates(ps, m, input))
  {
    if ps != [] {
      CandidatesOrdered(ps[1..], m, input);
      var rest := Candidates(ps[1..], m, input);
      match m(ps[0].regex, input)
      case Some(mt) =>
        var c := Candidate(ps[0], mt);
        assert Candidates(ps, m, input) == [c] + rest;
        forall j | 0 <= j < |rest| && rest[j].name == c.name ensures c.confidence >= rest[j].confidence {
          CandidateOrigin(ps[1..], m, input, rest[j]);
          var k :| 0 <= k < |ps[1..]| && ps[1..][k].variable == rest[j].name && ps[1..][k].confidence == rest[j].confidence;
          assert ps[k + 1] == ps[1..][k];
        }
        NonIncreasingCons(c, rest);
      case None =>
        assert Candidates(ps, m, input) == rest;
    }
  }

  /** `variableMap` holds each name of the records once. */
  lemma ResolveKeys(cs: seq<ExtractedVariable>)
    ensures NoDup(Keys(Resolve(cs), NameOf))
    ensures forall n :: n in Keys(Resolve(cs), NameOf) <==> n in Keys(cs, NameOf)
  {
    KeepBestKeys(cs, NameOf, ConfidenceOf);
    DedupSpec(Keys(cs, NameOf));
  }

  /** When a name's records never rise in confidence, the record kept for it
      is its first one; a name with no record is absent. */
  lemma ResolveFirst(cs: seq<ExtractedVariable>, n: string)
    requires NonIncreasingPerName(cs)
    ensures var vars := VarsOf(Resolve(cs));
            var i := IndexOf(Keys(cs, NameOf), n);
            && (n in vars <==> 0 <= i)
            && (0 <= i ==> vars[n] == cs[i].value)
  {
    var kept := Resolve(cs);
    var ks := Keys(cs, NameOf);
    ResolveKeys(cs);
    VarsOfSpec(kept);
    var i0 := IndexOf(ks, n);
    if 0 <= i0 {
      assert n in ks;
      var j :| 0 <= j < |kept| && Keys(kept, NameOf)[j] == n;
      KeepBestChosen(cs, NameOf, ConfidenceOf);
      assert Chosen(cs, kept[j], NameOf, ConfidenceOf);
      var i :| 0 <= i < |cs| && cs[i] == kept[j] && FirstBest(cs, i, NameOf, ConfidenceOf);
      assert ks[i] == n;
      assert i == i0;
    }
  }

  /** With a table whose confidences never rise for a variable, each extracted
      variable takes the value of the first pattern in table order that sets it
      and matches; a variable no matching pattern sets is absent. */
  lemma ResolvedIsFirstMatch(ps: seq<Pattern>, m: Matcher, input: string, n: string)
    requires TableOrdered(ps)
    ensures var vars := VarsOf(Resolve(Candidates(ps, m, input)));
            && (n in vars <==> FirstMatching(ps, m, input, n).Some?)
            && (n in vars ==> vars[n] == FirstMatching(ps, m, input, n).value.value)
  {
    CandidatesOrdered(ps, m, input);
    FirstMatchingIsFirstCandidate(ps, m, input, n);
    ResolveFirst(Candidates(ps, m, input), n);
  }

  /** "was an offer made" settles `offer_made` to true, whatever else matches. */
  lemma OfferMadeFirstPattern(m: Matcher, input: string)
    requires m(Patterns[0].regex, input).Some?
    ensures "offer_made" in Extract(m, input).variables
    ensures Extract(m, input).variables["offer_made"] == JBool(true)
  {
    PatternsOrdered();
    ResolvedIsFirstMatch(Patterns, m, input, "offer_made");
  }

  /** A denial of the offer sets `offer_made` to false when no affirmation
      matches. */
  lemma OfferDeniedSecondPattern(m: Matcher, input: string)
    requires m(Patterns[0].regex, input).None? && m(Patterns[1].regex, input).Some?
    ensures "offer_made" in Extract(m, input).variables
    ensures Extract(m, input).variables["offer_made"] == JBool(false)
  {
    PatternsOrdered();
    ResolvedIsFirstMatch(Patterns, m, input, "offer_made");
  }

  /** The digits captured after "within/before/after" become the number of
      days: the value of the digit group, leading zeros included. */
  lemma TimeLimitDays(m: Matcher, input: string, text: string, g: string)
    requires IsDigitRun(g)
    requires m(Patterns[9].regex, input) == Some(RegexMatch(text, Some(g)))
    ensures "time_limit_days" in Extract(m, input).variables
    ensures Extract(m, input).variables["time_limit_days"] == JNum(DigitsValue(g) as real)
  {
    TimeLimitValue(m, input, RegexMatch(text, Some(g)));
    ParseIntOfDigits(g);
  }

  /** A match of the time-limit pattern sets `time_limit_days` to `parseInt` of
      the captured group. */
  lemma TimeLimitValue(m: Matcher, input: string, mt: RegexMatch)
    requires m(Patterns[9].regex, input) == Some(mt)
    ensures "time_limit_days" in Extract(m, input).variables
    ensures Extract(m, input).variables["time_limit_days"] == ParseInt(mt.group1)
  {
    PatternsOrdered();
    ResolvedIsFirstMatch(Patterns, m, input, "time_limit_days");
    FirstTimeLimitPattern(m, input, mt);
  }

  /** A group that prints a number of days gives back that number. */
  lemma TimeLimitDaysOfNat(m: Matcher, input: string, text: string, days: nat)
    requires m(Patterns[9].regex, input) == Some(RegexMatch(text, Some(NatToString(days))))
    ensures "time_limit_days" in Extract(m, input).variables
    ensures Extract(m, input).variables["time_limit_days"] == JNum(days as real)
  {
    var g := NatToString(days);
    ParseIntOfNat(days);
    TimeLimitDays(m, input, text, g);
    DigitsValueOfNatToString(days);
  }

  lemma FirstTimeLimitPattern(m: Matcher, input: string, mt: RegexMatch)
    requires m(Patterns[9].regex, input) == Some(mt)
    ensures FirstMatching(Patterns, m, input, "time_limit_days") == Some(Candidate(Patterns[9], mt))
  {
    var ps := Patterns;
    assert forall i :: 0 <= i < 9 ==> ps[i].variable != "time_limit_days";
    FirstMatchingSkip(ps, m, input, "time_limit_days", 9);
    assert ps[9..][0] == ps[9];
  }

  lemma {:induction false} FirstMatchingSkip(ps: seq<Pattern>, m: Matcher, input: string, n: string, k: int)
    requires 0 <= k <= |ps|
    requires forall i :: 0 <= i < k ==> ps[i].variable != n
    ensures FirstMatching(ps, m, input, n) == FirstMatching(ps[k..], m, input, n)
  {
    if k > 0 {
      FirstMatchingSkip(ps[1..], m, input, n, k - 1);
      assert ps[1..][k - 1..] == ps[k..];
    }
  }

  /** A scenario no pattern matches yields no variable and the first three
      suggestions. */
  lemma NothingMatches(m: Matcher, input: string)
    requires forall k :: 0 <= k < |Patterns| ==> m(Patterns[k].regex, input).None?
    ensures Extract(m, input).variables == map[]
    ensures Extract(m, input).extractedVariables == []
    ensures Extract(m, input).suggestions ==
            [SuggestionText("offer_made"), SuggestionText("governor_accepted"), SuggestionText("certificate_filed")]
  {
    var ps := Patterns;
    NoCandidates(ps, m, input, 0);
    assert ps[0..] == ps;
    SuggestionsForEmptyRecord();
  }

  lemma SuggestionsForEmptyRecord()
    ensures Suggestions(map[]) ==
            [SuggestionText("offer_made"), SuggestionText("governor_accepted"), SuggestionText("certificate_filed")]
  {
    var cv := CommonVariables;
    SuggestionListAllFalsy(cv, map[]);
    var all := SuggestionList(cv, map[]);
    assert Suggestions(map[]) == all[..3];
    assert cv[0] == "offer_made" && cv[1] == "governor_accepted" && cv[2] == "certificate_filed";
  }

  /** The suggestion for `offer_made` reads "whether offer made". */
  lemma OfferMadeSuggestionText()
    ensures SuggestionText("offer_made") == "Did you mean to specify whether offer made?"
  {
    assert UnderscoresToSpaces("offer_made") == "offer made";
  }

  lemma {:induction false} SuggestionListAllFalsy(names: seq<string>, vars: Vars)
    requires forall i :: 0 <= i < |names| ==> Falsy(vars, names[i])
    ensures SuggestionList(names, vars) == seq(|names|, i requires 0 <= i < |names| => SuggestionText(names[i]))
  {
    if names != [] {
      SuggestionListAllFalsy(names[..|names| - 1], vars);
    }
  }

  lemma {:induction false} NoCandidates(ps: seq<Pattern>, m: Matcher, input: string, k: int)
    requires 0 <= k <= |ps|
    requires forall i :: k <= i < |ps| ==> m(ps[i].regex, input).None?
    ensures Candidates(ps[k..], m, input) == []
    decreases |ps| - k
  {
    if k < |ps| {
      NoCandidates(ps, m, input, k + 1);
      assert ps[k..][1..] == ps[k + 1..];
    }
  }



  /** No two variables share a question. */
  lemma TemplatesDistinct()
    ensures forall a, b :: a in QuestionTemplates && b in QuestionTemplates && a != b ==>
              QuestionTemplates[a] != QuestionTemplates[b]
  {
  }

  /** `statuteVariables.filter(n => !vars[n])` */
  function Unanswered(names: seq<string>, vars: Vars): (r: seq<string>)
    ensures |r| <= |names|
    ensures forall i :: 0 <= i < |r| ==> r[i] in names && Falsy(vars, r[i])
    ensures forall i :: 0 <= i < |names| && Falsy(vars, names[i]) ==> names[i] in r
  {
    if names == [] then []
    else (if Falsy(vars, names[0]) then [names[0]] else []) + Unanswered(names[1..], vars)
  }

  /** The filter keeps the input order. */
  lemma {:induction false} UnansweredAppend(a: seq<string>, b: seq<string>, vars: Vars)
    ensures Unanswered(a + b, vars) == Unanswered(a, vars) + Unanswered(b, vars)
  {
    if a == [] {
      assert a + b == b;
    } else {
      var h := if Falsy(vars, a[0]) then [a[0]] else [];
      assert (a + b)[0] == a[0] && (a + b)[1..] == a[1..] + b;
      assert Unanswered(a, vars) == h + Unanswered(a[1..], vars);
      assert Unanswered(a + b, vars) == h + Unanswered(a[1..] + b, vars);
      UnansweredAppend(a[1..], b, vars);
      AppendAssoc(h, Unanswered(a[1..], vars), Unanswered(b, vars));
    }
  }

  /** The questions the loop pushes for `names`, in order, given the table of
      question templates. */
  function QuestionsFor(names: seq<string>, templates: map<string, string>): seq<string> {
    if names == [] then []
    else
      var prev := QuestionsFor(names[..|names| - 1], templates);
      var n := names[|names| - 1];
      if n in templates then prev + [templates[n]] else prev
  }

  /** The questions follow the order of the names. */
  lemma {:induction false} QuestionsForAppend(a: seq<string>, b: seq<string>, templates: map<string, string>)
    ensures QuestionsFor(a + b, templates) == QuestionsFor(a, templates) + QuestionsFor(b, templates)
  {
    if b == [] {
      assert a + b == a;
    } else {
      var q := b[..|b| - 1];
      QuestionsForAppend(a, q, templates);
      assert (a + b)[..|a + b| - 1] == a + q;
      assert (a + b)[|a + b| - 1] == b[|b| - 1];
    }
  }

  /** One question per name that has a template, and none for other names, in
      the order of the names: at every split point, the questions are those for
      the names before it followed by those for the names after it. When every
      name has a template there are exactly as many questions as names. */
  lemma {:induction false} QuestionsForSpec(names: seq<string>, templates: map<string, string>)
    ensures |QuestionsFor(names, templates)| <= |names|
    ensures forall q :: q in QuestionsFor(names, templates) ==>
              exists n :: n in names && n in templates && templates[n] == q
    ensures forall n :: n in names && n in templates ==> templates[n] in QuestionsFor(names, templates)
    ensures (forall n :: n in names ==> n in templates) ==> |QuestionsFor(names, templates)| == |names|
    ensures forall i :: 0 <= i <= |names| ==>
              QuestionsFor(names, templates) == QuestionsFor(names[..i], templates) + QuestionsFor(names[i..], templates)
  {
    if names != [] {
      var p := names[..|names| - 1];
      QuestionsForSpec(p, templates);
      assert names == p + [names[|names| - 1]];
      assert forall n :: n in p ==> n in names;
    }
    QuestionsForSplit(names, templates);
  }

  lemma QuestionsForSplit(names: seq<string>, templates: map<string, string>)
    ensures forall i :: 0 <= i <= |names| ==>
              QuestionsFor(names, templates) == QuestionsFor(names[..i], templates) + QuestionsFor(names[i..], templates)
  {
    forall i | 0 <= i <= |names|
      ensures QuestionsFor(names, templates) == QuestionsFor(names[..i], templates) + QuestionsFor(names[i..], templates)
    {
      var a, b := names[..i], names[i..];
      assert a + b == names;
      QuestionsForAppend(a, b, templates);
    }
  }

  /** The result of `generateFollowUpQuestions`. */
  function FollowUps(vars: Vars, statuteVariables: seq<string>): seq<string> {
    QuestionsFor(Slice(Unanswered(statuteVariables, vars), 5), QuestionTemplates)
  }

  /** `generateFollowUpQuestions`: the first five statute variables without a
      truthy value, each turned into its question when it has one. */
  method GenerateFollowUpQuestions(vars: Vars, statuteVariables: seq<string>) returns (questions: seq<string>)
    ensures questions == FollowUps(vars, statuteVariables)
    ensures |questions| <= 5
  {
    var variablePriority := Slice(Unanswered(statuteVariables, vars), 5);
    questions := [];
    for i := 0 to |variablePriority|
      invariant questions == QuestionsFor(variablePriority[..i], QuestionTemplates)
    {
      assert variablePriority[..i + 1][..i] == variablePriority[..i];
      var varName := variablePriority[i];
      if varName in QuestionTemplates {
        questions := questions + [QuestionTemplates[varName]];
      }
    }
    assert variablePriority[..|variablePriority|] == variablePriority;
    QuestionsForSpec(variablePriority, QuestionTemplates);
  }

  /** Every question asks about a statute variable whose value is falsy; a
      variable with a truthy value is never asked about; and each of the first
      five unanswered variables that has a question gets it. */
  lemma FollowUpsSpec(vars: Vars, statuteVariables: seq<string>)
    ensures forall q :: q in FollowUps(vars, statuteVariables) ==>
              exists n :: n in statuteVariables && Falsy(vars, n) && n in QuestionTemplates && QuestionTemplates[n] == q
    ensures forall n :: n in QuestionTemplates && !Falsy(vars, n) ==>
              QuestionTemplates[n] !in FollowUps(vars, statuteVariables)
    ensures forall n :: n in Slice(Unanswered(statuteVariables, vars), 5) && n in QuestionTemplates ==>
              QuestionTemplates[n] in FollowUps(vars, statuteVariables)
  {
    var u := Unanswered(statuteVariables, vars);
    var first := Slice(u, 5);
    QuestionsForSpec(first, QuestionTemplates);
    TemplatesDistinct();
    forall q | q in FollowUps(vars, statuteVariables)
      ensures exists n :: n in statuteVariables && Falsy(vars, n) && n in QuestionTemplates && QuestionTemplates[n] == q
    {
      var n :| n in first && n in QuestionTemplates && QuestionTemplates[n] == q;
      assert n in u;
    }
    forall n | n in QuestionTemplates && !Falsy(vars, n)
      ensures QuestionTemplates[n] !in FollowUps(vars, statuteVariables)
    {
      forall n' | n' in first && n' in QuestionTemplates ensures QuestionTemplates[n'] != QuestionTemplates[n] {
        assert n' in u;
      }
    }
  }

  /** `parseFloat(s)`, None for NaN. */
  type ParseFloat = string -> Option<real>

  /** The schema's type for a key; an absent or empty entry is none. */
  function ExpectedType(schema: map<string, string>, key: string): Option<string> {
    if key in schema && schema[key] != "" then Some(schema[key]) else None
  }

  /** The value `validateVariables` stores for a value with an expected type. */
  function Coerce(v: JsValue, expected: Option<string>, parseFloat: ParseFloat, numberText: real -> string): JsValue {
    match expected
    case None => v
    case Some(t) =>
      if t == "boolean" then JBool(Truthy(v))
      else if t == "number" then
        (if v.JNum? || v.JNaN? then v
         else match parseFloat(ToJsString(v, numberText))
              case Some(x) => JNum(x)
              case None => JNaN)
      else if t == "string" then JStr(ToJsString(v, numberText))
      else v
  }

  /** The record `validateVariables` returns. */
  function Validated(vars: Vars, schema: Option<map<string, string>>, parseFloat: ParseFloat, numberText: real -> string): Vars {
    match schema
    case None => vars
    case Some(sc) => map k | k in vars :: Coerce(vars[k], ExpectedType(sc, k), parseFloat, numberText)
  }

  /** `validateVariables`: without a schema the record itself; otherwise each
      entry coerced to the type the schema names for it. */
  method ValidateVariables(vars: Vars, schema: Option<map<string, string>>, parseFloat: ParseFloat, numberText: real -> string)
    returns (validated: Vars)
    ensures validated == Validated(vars, schema, parseFloat, numberText)
    ensures validated.Keys == vars.Keys
  {
    if schema.None? {
      return vars;
    }
    var sc := schema.value;
    validated := map[];
    var todo := vars.Keys;
    while todo != {}
      invariant todo <= vars.Keys
      invariant validated.Keys == vars.Keys - todo
      invariant forall k :: k in validated ==> validated[k] == Coerce(vars[k], ExpectedType(sc, k), parseFloat, numberText)
      decreases |todo|
    {
      var key :| key in todo;
      var value := vars[key];
      var expectedType := ExpectedType(sc, key);
      var stored := CoerceEntry(value, expectedType, parseFloat, numberText);
      validated := validated[key := stored];
      todo := todo - {key};
    }
    var expected := Validated(vars, schema, parseFloat, numberText);
    assert validated.Keys == expected.Keys;
    assert forall k | k in validated :: validated[k] == expected[k];
  }

  /** The `switch` on the expected type, for one entry. */
  method CoerceEntry(value: JsValue, expectedType: Option<string>, parseFloat: ParseFloat, numberText: real -> string)
    returns (stored: JsValue)
    ensures stored == Coerce(value, expectedType, parseFloat, numberText)
  {
    if expectedType.None? {
      return value;
    }
    var t := expectedType.value;
    if t == "boolean" {
      stored := JBool(Truthy(value));
    } else if t == "number" {
      if value.JNum? || value.JNaN? {
        stored := value;
      } else {
        var parsed := parseFloat(ToJsString(value, numberText));
        stored := if parsed.Some? then JNum(parsed.value) else JNaN;
      }
    } else if t == "string" {
      stored := JStr(ToJsString(value, numberText));
    } else {
      stored := value;
    }
  }

  /** A validated value has the type the schema names: a boolean, a number
      (possibly NaN) or a string. */
  lemma ValidatedTypes(vars: Vars, sc: map<string, string>, parseFloat: ParseFloat, numberText: real -> string, k: string)
    requires k in vars && k in sc
    ensures var v := Validated(vars, Some(sc), parseFloat, numberText)[k];
            && (sc[k] == "boolean" ==> v == JBool(Truthy(vars[k])))
            && (sc[k] == "number" ==> v.JNum? || v.JNaN?)
            && (sc[k] == "number" && (vars[k].JNum? || vars[k].JNaN?) ==> v == vars[k])
            && (sc[k] == "string" ==> v == JStr(ToJsString(vars[k], numberText)))
            && (sc[k] !in {"boolean", "number", "string"} ==> v == vars[k])
  {
  }

  /** Without a schema the record comes back as it is; with one, the keys stay
      the same and a key the schema does not type keeps its value. */
  lemma ValidatedUntyped(vars: Vars, schema: Option<map<string, string>>, parseFloat: ParseFloat, numberText: real -> string)
    ensures schema.None? ==> Validated(vars, schema, parseFloat, numberText) == vars
    ensures Validated(vars, schema, parseFloat, numberText).Keys == vars.Keys
    ensures forall k :: k in vars && (schema.Some? ==> k !in schema.value || schema.value[k] == "") ==>
              Validated(vars, schema, parseFloat, numberText)[k] == vars[k]
  {
  }

  /** Validating twice against the same schema changes nothing more. */
  lemma ValidateIdempotent(vars: Vars, schema: Option<map<string, string>>, parseFloat: ParseFloat, numberText: real -> string)
    ensures Validated(Validated(vars, schema, parseFloat, numberText), schema, parseFloat, numberText) ==
            Validated(vars, schema, parseFloat, numberText)
  {
    if schema.Some? {
      var once := Validated(vars, schema, parseFloat, numberText);
      var twice := Validated(once, schema, parseFloat, numberText);
      forall k | k in once ensures twice[k] == once[k] {
        var e := ExpectedType(schema.value, k);
        assert once[k] == Coerce(vars[k], e, parseFloat, numberText);
      }
    }
  }
}
