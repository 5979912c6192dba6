/** The evaluation script's duplicate-response detection: responses whose
    lower-cased, trimmed texts agree are duplicates of the earliest one, and
    the test results of the later ones are flagged. */
module ChatbotTests {
  import opened JsValues
  import opened JsStrings
  import opened Lists

  /** One entry `[id, response]` of the `responses` map, in insertion order. */
  datatype Response = Response(id: string, text: string)

  /** `response.toLowerCase().trim()` */
  function Norm(text: string): string { Trim(ToLower(text)) }

  function IdOf(r: Response): string { r.id }
  function NormOf(r: Response): string { Norm(r.text) }

  /** `seen` after the loop over the entries with these ids and normalised
      texts. */
  function Seen(ids: seq<string>, norms: seq<string>): map<string, string>
    requires |ids| == |norms|
  {
    if ids == [] then map[]
    else
      var n := |ids| - 1;
      var seen := Seen(ids[..n], norms[..n]);
      if norms[n] in seen then seen else seen[norms[n] := ids[n]]
  }

  /** `duplicates` after the loop over the entries with these ids and
      normalised texts. */
  function Duplicates(ids: seq<string>, norms: seq<string>): map<string, string>
    requires |ids| == |norms|
  {
    if ids == [] then map[]
    else
      var n := |ids| - 1;
      var seen := Seen(ids[..n], norms[..n]);
      var d := Duplicates(ids[..n], norms[..n]);
      if norms[n] in seen then d[ids[n] := seen[norms[n]]] else d
  }

  /** `detectDuplicates` */
  method DetectDuplicates(responses: seq<Response>) returns (duplicates: map<string, string>)
    ensures duplicates == Duplicates(Keys(responses, IdOf), Keys(responses, NormOf))
  {
    ghost var ids, norms := Keys(responses, IdOf), Keys(responses, NormOf);
    duplicates := map[];
    var seen: map<string, string> := map[];
    for i := 0 to |responses|
      invariant seen == Seen(ids[..i], norms[..i])
      invariant duplicates == Duplicates(ids[..i], norms[..i])
    {
      assert ids[..i + 1][..i] == ids[..i] && norms[..i + 1][..i] == norms[..i];
      SeenLast(ids[..i + 1], norms[..i + 1]);
      DuplicatesLast(ids[..i + 1], norms[..i + 1]);
      var id := responses[i].id;
      var normalized := Norm(responses[i].text);
      assert id == ids[i] && normalized == norms[i];
      if normalized in seen {
        duplicates := duplicates[id := seen[normalized]];
      } else {
        seen := seen[normalized := id];
      }
    }
    assert ids[..|responses|] == ids && norms[..|responses|] == norms;
  }

  /** `seen` maps each normalised text to the id of its earliest entry. */
  lemma {:induction false} SeenSpec(ids: seq<string>, norms: seq<string>)
    requires |ids| == |norms|
    ensures forall t :: t in Seen(ids, norms) <==> t in norms
    ensures forall t :: t in Seen(ids, norms) ==> Seen(ids, norms)[t] == ids[IndexOf(norms, t)]
  {
    if ids != [] {
      var n := |ids| - 1;
      SeenSpec(ids[..n], norms[..n]);
      assert norms == norms[..n] + [norms[n]];
      forall t ensures IndexOf(norms, t) == IndexOf(norms[..n], t) || (t == norms[n] && t !in norms[..n]) {
        IndexOfExtend(norms[..n], norms[n], t);
      }
      IndexOfExtend(norms[..n], norms[n], norms[n]);
    }
  }

  lemma SeenLast(ids: seq<string>, norms: seq<string>)
    requires |ids| == |norms| && ids != []
    ensures var n := |ids| - 1;
            var seen := Seen(ids[..n], norms[..n]);
            Seen(ids, norms) == if norms[n] in seen then seen else seen[norms[n] := ids[n]]
  {
  }

  lemma DuplicatesLast(ids: seq<string>, norms: seq<string>)
    requires |ids| == |norms| && ids != []
    ensures var n := |ids| - 1;
            var seen, d := Seen(ids[..n], norms[..n]), Duplicates(ids[..n], norms[..n]);
            Duplicates(ids, norms) == if norms[n] in seen then d[ids[n] := seen[norms[n]]] else d
  {
  }

  /** Every key of the result is an entry's id. */
  lemma {:induction false} DuplicatesKeys(ids: seq<string>, norms: seq<string>)
    requires |ids| == |norms|
    ensures forall id :: id in Duplicates(ids, norms) ==> id in ids
  {
    if ids != [] {
      var n := |ids| - 1;
      DuplicatesKeys(ids[..n], norms[..n]);
      DuplicatesLast(ids, norms);
      forall id | id in Duplicates(ids, norms) ensures id in ids {
        if id != ids[n] {
          assert id in ids[..n];
        }
      }
    }
  }

  /** Entry i is a key iff an earlier entry has its normalised text, and then
      maps to the earliest such entry's id. */
  lemma {:induction false} DuplicatesAt(ids: seq<string>, norms: seq<string>, i: int)
    requires |ids| == |norms| && NoDup(ids) && 0 <= i < |ids|
    ensures ids[i] in Duplicates(ids, norms) <==> IndexOf(norms, norms[i]) < i
    ensures ids[i] in Duplicates(ids, norms) ==> Duplicates(ids, norms)[ids[i]] == ids[IndexOf(norms, norms[i])]
  {
    var n := |ids| - 1;
    var p, q := ids[..n], norms[..n];
    DuplicatesLast(ids, norms);
    assert norms == q + [norms[n]];
    if i < n {
      assert NoDup(p) && p[i] == ids[i] && q[i] == norms[i] && ids[i] != ids[n];
      DuplicatesAt(p, q, i);
      IndexOfExtend(q, norms[n], norms[i]);
    } else {
      SeenSpec(p, q);
      DuplicatesKeys(p, q);
      assert ids[n] !in p;
      IndexOfExtend(q, norms[n], norms[n]);
    }
  }

  /** Without repeated ids: an entry is a key of the result iff an earlier
      entry has the same normalised text, and it then maps to the earliest
      such entry's id; every key is an entry's id. */
  lemma DuplicatesSpec(ids: seq<string>, norms: seq<string>)
    requires |ids| == |norms| && NoDup(ids)
    ensures forall id :: id in Duplicates(ids, norms) ==> id in ids
    ensures forall i :: 0 <= i < |ids| ==> (ids[i] in Duplicates(ids, norms) <==> IndexOf(norms, norms[i]) < i)
    ensures forall i :: 0 <= i < |ids| && ids[i] in Duplicates(ids, norms) ==>
              Duplicates(ids, norms)[ids[i]] == ids[IndexOf(norms, norms[i])]
  {
    DuplicatesKeys(ids, norms);
    forall i | 0 <= i < |ids|
      ensures ids[i] in Duplicates(ids, norms) <==> IndexOf(norms, norms[i]) < i
      ensures ids[i] in Duplicates(ids, norms) ==> Duplicates(ids, norms)[ids[i]] == ids[IndexOf(norms, norms[i])]
    {
      DuplicatesAt(ids, norms, i);
    }
  }

  /** No id that the result maps to is itself a key: the earliest entry with a
      given text is never flagged. */
  lemma NoValueIsKey(ids: seq<string>, norms: seq<string>)
    requires |ids| == |norms| && NoDup(ids)
    ensures forall id :: id in Duplicates(ids, norms) ==> Duplicates(ids, norms)[id] !in Duplicates(ids, norms)
    ensures forall i :: 0 <= i < |ids| && IndexOf(norms, norms[i]) == i ==> ids[i] !in Duplicates(ids, norms)
  {
    var d := Duplicates(ids, norms);
    DuplicatesSpec(ids, norms);
    forall id | id in d ensures d[id] !in d {
      var i :| 0 <= i < |ids| && ids[i] == id;
      var f := IndexOf(norms, norms[i]);
      assert norms[f] == norms[i];
    }
  }

  /** One key per entry beyond the first of each normalised text. */
  lemma {:induction false} DuplicateCount(ids: seq<string>, norms: seq<string>)
    requires |ids| == |norms| && NoDup(ids)
    ensures |Duplicates(ids, norms).Keys| == |ids| - |Dedup(norms)|
  {
    if ids != [] {
      var n := |ids| - 1;
      var p, q := ids[..n], norms[..n];
      assert NoDup(p);
      DuplicateCount(p, q);
      DuplicatesSpec(p, q);
      SeenSpec(p, q);
      DedupOntoFacts([], q);
      DuplicatesLast(ids, norms);
      assert ids[n] !in Duplicates(p, q);
    }
  }

  /** The part of `TestResult` the flagging reads and writes. */
  class TestResult {
    const testId: string
    var isDuplicate: bool
    var duplicateOf: Option<string>

    /** A result as built after evaluation: not yet a duplicate. */
    constructor (testId: string)
      ensures this.testId == testId && !isDuplicate && duplicateOf.None?
    {
      this.testId := testId;
      isDuplicate := false;
      duplicateOf := None;
    }

    /** `if (duplicates.has(result.testId)) { ... }` */
    method Flag(duplicates: map<string, string>)
      modifies this
      ensures testId in duplicates ==> isDuplicate && duplicateOf == Some(duplicates[testId])
      ensures testId !in duplicates ==> isDuplicate == old(isDuplicate) && duplicateOf == old(duplicateOf)
    {
      if testId in duplicates {
        isDuplicate := true;
        duplicateOf := Some(duplicates[testId]);
      }
    }
  }

  /** The flagging loop of `runTests`: each result whose id is a key is
      flagged with the id it duplicates; the others keep their flags. */
  method FlagDuplicates(results: seq<TestResult>, duplicates: map<string, string>)
    modifies set r | r in results
    ensures forall r :: r in results && r.testId in duplicates ==> r.isDuplicate && r.duplicateOf == Some(duplicates[r.testId])
    ensures forall r :: r in results && r.testId !in duplicates ==>
              r.isDuplicate == old(r.isDuplicate) && r.duplicateOf == old(r.duplicateOf)
  {
    for i := 0 to |results|
      invariant forall r :: r in results[..i] && r.testId in duplicates ==> r.isDuplicate && r.duplicateOf == Some(duplicates[r.testId])
      invariant forall r :: r in results && r.testId !in duplicates ==>
                  r.isDuplicate == old(r.isDuplicate) && r.duplicateOf == old(r.duplicateOf)
    {
      assert results[..i + 1] == results[..i] + [results[i]];
      results[i].Flag(duplicates);
    }
    assert results[..|results|] == results;
  }

  /** Read on the responses themselves: a response is reported iff an earlier
      response has the same lower-cased, trimmed text, and it is then reported
      as a duplicate of the earliest such response. */
  lemma DetectedMeaning(responses: seq<Response>, i: int)
    requires NoDup(Keys(responses, IdOf)) && 0 <= i < |responses|
    ensures var d := Duplicates(Keys(responses, IdOf), Keys(responses, NormOf));
            var f := IndexOf(Keys(responses, NormOf), Norm(responses[i].text));
            (responses[i].id in d <==> f < i) &&
            (f < i ==> d[responses[i].id] == responses[f].id && Norm(responses[f].text) == Norm(responses[i].text))
  {
    var ids, norms := Keys(responses, IdOf), Keys(responses, NormOf);
    DuplicatesSpec(ids, norms);
    assert ids[i] == responses[i].id && norms[i] == Norm(responses[i].text);
    var f := IndexOf(norms, norms[i]);
    if f >= 0 {
      assert norms[f] == NormOf(responses[f]);
    }
  }
}
