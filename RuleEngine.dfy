/** The JSON Logic rule engine: evaluating a rule against a variable record,
    collecting the variable names a rule reads, and the share of those names the
    record provides. The JSON Logic interpreter itself (json-logic-js) is a
    parameter of the model. */
module RuleEngine {
  import opened JsValues
  import opened Lists

  /** `jsonLogic.apply(rule, data)`: a value, or the exception it throws. */
  type Evaluator = (JsValue, Vars) -> Result<JsValue, string>

  /** `applyRule`: the truthiness of the rule's value; a rule whose evaluation
      throws does not match. */
  function ApplyRule(eval: Evaluator, rule: JsValue, vars: Vars): (matched: bool)
    ensures eval(rule, vars).Err? ==> !matched
    ensures eval(rule, vars).Ok? ==> (matched <==> Truthy(eval(rule, vars).value))
  {
    match eval(rule, vars)
    case Ok(v) => Truthy(v)
    case Err(_) => false
  }

  /** The names `traverse` adds to its set, in the order it adds them, repeats
      included: an entry `"var": <string>` of an object gives that string, any
      other entry is traversed, and so is every element of an array. */
  function VarRefs(j: JsValue): seq<string>
    decreases j, 2
  {
    match j
    case JArr(items) => ItemRefs(items)
    case JObj(entries) => EntryRefs(entries)
    case _ => []
  }

  function ItemRefs(items: seq<JsValue>): seq<string>
    decreases items, 1
  {
    if items == [] then []
    else ItemRefs(items[..|items| - 1]) + VarRefs(items[|items| - 1])
  }

  function EntryRefs(entries: seq<(string, JsValue)>): seq<string>
    decreases entries, 1
  {
    if entries == [] then []
    else EntryRefs(entries[..|entries| - 1]) + EntryRef(entries[|entries| - 1])
  }

  function EntryRef(e: (string, JsValue)): seq<string>
    decreases e, 0
  {
    if e.0 == "var" && e.1.JStr? then [e.1.s] else VarRefs(e.1)
  }

  /** The rule reads the name x: somewhere inside it, not below a `var` entry
      with a string value, there is an object with the entry `"var": x`. */
  ghost predicate Mentions(j: JsValue, x: string)
    decreases j, 1
  {
    match j
    case JArr(items) => exists i :: 0 <= i < |items| && Mentions(items[i], x)
    case JObj(entries) => exists i :: 0 <= i < |entries| && EntryMentions(entries[i], x)
    case _ => false
  }

  ghost predicate EntryMentions(e: (string, JsValue), x: string)
    decreases e, 0
  {
    if e.0 == "var" && e.1.JStr? then e.1.s == x else Mentions(e.1, x)
  }

  /** The traversal collects exactly the names the rule mentions. */
  lemma {:induction false} VarRefsMentions(j: JsValue, x: string)
    ensures x in VarRefs(j) <==> Mentions(j, x)
    decreases j, 2
  {
    match j
    case JArr(items) => ItemRefsMentions(items, x);
    case JObj(entries) => EntryRefsMentions(entries, x);
    case _ =>
  }

  lemma {:induction false} ItemRefsMentions(items: seq<JsValue>, x: string)
    ensures x in ItemRefs(items) <==> exists i :: 0 <= i < |items| && Mentions(items[i], x)
    decreases items, 1
  {
    if items != [] {
      var p, last := items[..|items| - 1], items[|items| - 1];
      ItemRefsMentions(p, x);
      VarRefsMentions(last, x);
      if exists i :: 0 <= i < |items| && Mentions(items[i], x) {
        var i :| 0 <= i < |items| && Mentions(items[i], x);
        if i < |p| {
          assert p[i] == items[i];
        }
      }
      if exists i :: 0 <= i < |p| && Mentions(p[i], x) {
        var i :| 0 <= i < |p| && Mentions(p[i], x);
        assert items[i] == p[i];
      }
    }
  }

  lemma {:induction false} EntryRefsMentions(entries: seq<(string, JsValue)>, x: string)
    ensures x in EntryRefs(entries) <==> exists i :: 0 <= i < |entries| && EntryMentions(entries[i], x)
    decreases entries, 1
  {
    if entries != [] {
      var p, last := entries[..|entries| - 1], entries[|entries| - 1];
      EntryRefsMentions(p, x);
      EntryRefMentions(last, x);
      if exists i :: 0 <= i < |entries| && EntryMentions(entries[i], x) {
        var i :| 0 <= i < |entries| && EntryMentions(entries[i], x);
        if i < |p| {
          assert p[i] == entries[i];
        }
      }
      if exists i :: 0 <= i < |p| && EntryMentions(p[i], x) {
        var i :| 0 <= i < |p| && EntryMentions(p[i], x);
        assert entries[i] == p[i];
      }
    }
  }

  lemma {:induction false} EntryRefMentions(e: (string, JsValue), x: string)
    ensures x in EntryRef(e) <==> EntryMentions(e, x)
    decreases e, 0
  {
    if !(e.0 == "var" && e.1.JStr?) {
      VarRefsMentions(e.1, x);
    }
  }

  /** `extractVariablesFromRule(rule)`: the set of names, in first-seen order. */
  function RuleVariables(rule: JsValue): seq<string> {
    Dedup(VarRefs(rule))
  }

  /** Adds the names `obj` reads to the set `names`, as the nested `traverse`
      does. */
  method Traverse(obj: JsValue, names: seq<string>) returns (out: seq<string>)
    ensures out == DedupOnto(names, VarRefs(obj))
    decreases obj
  {
    out := names;
    match obj {
      case JArr(items) =>
        for i := 0 to |items|
          invariant out == DedupOnto(names, ItemRefs(items[..i]))
        {
          assert items[..i + 1][..i] == items[..i];
          DedupOntoAppend(names, ItemRefs(items[..i]), VarRefs(items[i]));
          out := Traverse(items[i], out);
        }
        assert items[..|items|] == items;
      case JObj(entries) =>
        for i := 0 to |entries|
          invariant out == DedupOnto(names, EntryRefs(entries[..i]))
        {
          assert entries[..i + 1][..i] == entries[..i];
          var (key, value) := entries[i];
          DedupOntoAppend(names, EntryRefs(entries[..i]), EntryRef(entries[i]));
          if key == "var" && value.JStr? {
            if value.s !in out {
              out := out + [value.s];
            }
          } else {
            out := Traverse(value, out);
          }
        }
        assert entries[..|entries|] == entries;
      case _ =>
    }
  }

  /** `extractVariablesFromRule`: each name the rule mentions, once. */
  method ExtractVariablesFromRule(rule: JsValue) returns (names: seq<string>)
    ensures names == RuleVariables(rule)
    ensures NoDup(names)
    ensures forall x :: x in names <==> Mentions(rule, x)
  {
    names := Traverse(rule, []);
    DedupSpec(VarRefs(rule));
    forall x ensures x in names <==> Mentions(rule, x) {
      VarRefsMentions(rule, x);
    }
  }

  /** `names.filter(n => providedVars.includes(n))`, where `providedVars` are the
      record's keys with a value other than undefined and null. */
  function DefinedAmong(names: seq<string>, vars: Vars): (d: seq<string>)
    ensures |d| <= |names|
  {
    if names == [] then []
    else (if Defined(vars, names[0]) then [names[0]] else []) + DefinedAmong(names[1..], vars)
  }

  /** The filter keeps the input order: filtering two lists put one after the
      other gives the first list's provided names, then the second's. */
  lemma {:induction false} DefinedAmongAppend(a: seq<string>, b: seq<string>, vars: Vars)
    ensures DefinedAmong(a + b, vars) == DefinedAmong(a, vars) + DefinedAmong(b, vars)
  {
    if a == [] {
      assert a + b == b;
    } else {
      DefinedAmongAppend(a[1..], b, vars);
      assert (a + b)[0] == a[0] && (a + b)[1..] == a[1..] + b;
      AppendAssoc(if Defined(vars, a[0]) then [a[0]] else [], DefinedAmong(a[1..], vars), DefinedAmong(b, vars));
    }
  }

  /** The filter keeps exactly the provided names, in the order of the input:
      at every split point, the result is the filter of the part before it
      followed by the filter of the part after it. */
  lemma {:induction false} DefinedAmongSpec(names: seq<string>, vars: Vars)
    ensures forall x :: x in DefinedAmong(names, vars) <==> x in names && Defined(vars, x)
    ensures forall i :: 0 <= i <= |names| ==>
              DefinedAmong(names, vars) == DefinedAmong(names[..i], vars) + DefinedAmong(names[i..], vars)
  {
    if names != [] {
      DefinedAmongSpec(names[1..], vars);
      assert names == [names[0]] + names[1..];
    }
    forall i | 0 <= i <= |names|
      ensures DefinedAmong(names, vars) == DefinedAmong(names[..i], vars) + DefinedAmong(names[i..], vars)
    {
      DefinedAmongAppend(names[..i], names[i..], vars);
      assert names[..i] + names[i..] == names;
    }
  }

  /** The filter keeps every name exactly when every name is provided. */
  lemma {:induction false} DefinedAmongAll(names: seq<string>, vars: Vars)
    ensures |DefinedAmong(names, vars)| == |names| <==> forall x :: x in names ==> Defined(vars, x)
  {
    if names != [] {
      DefinedAmongAll(names[1..], vars);
      if forall x :: x in names[1..] ==> Defined(vars, x) {
      } else {
        var x :| x in names[1..] && !Defined(vars, x);
        assert x in names;
      }
    }
  }

  /** The filter only looks at the provided-ness of the names it is given. */
  lemma {:induction false} DefinedAmongLocal(names: seq<string>, v1: Vars, v2: Vars)
    requires forall x :: x in names ==> (Defined(v1, x) <==> Defined(v2, x))
    ensures DefinedAmong(names, v1) == DefinedAmong(names, v2)
  {
    if names != [] {
      assert names[0] in names;
      DefinedAmongLocal(names[1..], v1, v2);
    }
  }

  /** Providing more names never shrinks the filter. */
  lemma {:induction false} DefinedAmongMono(names: seq<string>, v1: Vars, v2: Vars)
    requires forall x :: Defined(v1, x) ==> Defined(v2, x)
    ensures |DefinedAmong(names, v1)| <= |DefinedAmong(names, v2)|
  {
    if names != [] {
      DefinedAmongMono(names[1..], v1, v2);
    }
  }

  /** `calculateRuleConfidence`: the share of the rule's names the record
      provides, 0 for a rule that reads no name. */
  function RuleConfidence(rule: JsValue, vars: Vars): (c: real)
    ensures 0.0 <= c <= 1.0
    ensures RuleVariables(rule) == [] ==> c == 0.0
  {
    var required := RuleVariables(rule);
    if |required| == 0 then 0.0
    else
      RatioBound(|DefinedAmong(required, vars)| as real, |required| as real);
      |DefinedAmong(required, vars)| as real / |required| as real
  }

  /** The names `extractVariablesFromRule` returns are the names the rule
      mentions, each once. */
  lemma RuleVariablesSpec(rule: JsValue)
    ensures NoDup(RuleVariables(rule))
    ensures forall x :: x in RuleVariables(rule) <==> Mentions(rule, x)
  {
    DedupSpec(VarRefs(rule));
    forall x ensures x in RuleVariables(rule) <==> Mentions(rule, x) {
      VarRefsMentions(rule, x);
    }
  }

  lemma RatioBound(x: real, m: real)
    requires 0.0 < m && 0.0 <= x <= m
    ensures 0.0 <= x / m <= 1.0
  {
  }

  lemma RatioOne(d: real, n: real)
    requires 0.0 < n
    ensures d / n == 1.0 <==> d == n
  {
  }

  lemma RatioMono(d1: real, d2: real, n: real)
    requires 0.0 < n && d1 <= d2
    ensures d1 / n <= d2 / n
  {
    assert d2 / n - d1 / n == (d2 - d1) / n;
  }

  /** Full confidence exactly when the rule reads some name and the record
      provides every name it reads. */
  lemma RuleConfidenceFull(rule: JsValue, vars: Vars)
    ensures RuleConfidence(rule, vars) == 1.0 <==>
            RuleVariables(rule) != [] && forall x :: Mentions(rule, x) ==> Defined(vars, x)
  {
    var required := RuleVariables(rule);
    DefinedAmongAll(required, vars);
    RuleVariablesSpec(rule);
    if required != [] {
      RatioOne(|DefinedAmong(required, vars)| as real, |required| as real);
    }
  }

  /** Only the names the rule reads matter. */
  lemma RuleConfidenceLocal(rule: JsValue, v1: Vars, v2: Vars)
    requires forall x :: Mentions(rule, x) ==> (Defined(v1, x) <==> Defined(v2, x))
    ensures RuleConfidence(rule, v1) == RuleConfidence(rule, v2)
  {
    RuleVariablesSpec(rule);
    DefinedAmongLocal(RuleVariables(rule), v1, v2);
  }

  /** Providing more variables never lowers the confidence. */
  lemma RuleConfidenceMono(rule: JsValue, v1: Vars, v2: Vars)
    requires forall x :: Defined(v1, x) ==> Defined(v2, x)
    ensures RuleConfidence(rule, v1) <= RuleConfidence(rule, v2)
  {
    var required := RuleVariables(rule);
    DefinedAmongMono(required, v1, v2);
    if required != [] {
      var n := |required| as real;
      var d1, d2 := |DefinedAmong(required, v1)| as real, |DefinedAmong(required, v2)| as real;
      RatioMono(d1, d2, n);
    }
  }
}
