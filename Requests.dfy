/** What the two request handlers share: the guard on a blank scenario and the
    merge of the extracted variables with the caller's. */
module Requests {
  import opened JsValues
  import opened JsStrings

  /** `!scenarioInput?.trim()`: the scenario is absent or only white space. */
  predicate Blank(input: Option<string>) {
    input.None? || Trim(input.value) == ""
  }

  /** A scenario is blank exactly when it is absent or every character of it is
      white space. */
  lemma BlankSpec(input: Option<string>)
    ensures Blank(input) <==> input.None? || forall i :: 0 <= i < |input.value| ==> IsSpace(input.value[i])
  {
    if input.Some? {
      TrimEmptyIffBlank(input.value);
    }
  }

  /** `{ ...extracted, ...provided }`: every key of either record, with the
      caller's value where both have one. */
  function MergeVariables(extracted: Vars, provided: Vars): (merged: Vars)
    ensures forall k :: k in merged <==> k in extracted || k in provided
    ensures forall k :: k in provided ==> merged[k] == provided[k]
    ensures forall k :: k in extracted && k !in provided ==> merged[k] == extracted[k]
  {
    extracted + provided
  }
}
