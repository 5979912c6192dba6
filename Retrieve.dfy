/** Hybrid retrieval for the chatbot: weighted reciprocal rank fusion of the
    vector-search and keyword-search result lists, and the split of the fused
    list into the model's context (top 15) and the user's references (top 3). */
module Retrieve {
  import opened JsValues
  import opened JsStrings
  import opened Lists

  /** A search hit as fusion and formatting read it: `_id.toString()` is `key`;
      `title`, `id`, `content` and `url` are absent when null or undefined. */
  datatype Doc = Doc(key: string, title: Option<string>, id: Option<string>, content: Option<string>, url: Option<string>)

  /** One value `{ doc, score }` of the `fusedScores` map. */
  datatype Fused = Fused(doc: Doc, score: real)

  function DocKey(d: Doc): string { d.key }
  function KeyOf(f: Fused): string { f.doc.key }
  function ScoreOf(f: Fused): real { f.score }

  /** `(1 / (k + rank + 1)) * weight` */
  function Contribution(k: nat, rank: nat, weight: real): real {
    (1.0 / (k + rank + 1) as real) * weight
  }

  // ---------------------------------------------------------------- the fusion

  /** One `forEach` step on the map (kept as its values in insertion order):
      an unseen id gets the entry `{ doc, score: 0 }`, then c is added to the
      id's score. */
  function AddScore(fused: seq<Fused>, doc: Doc, c: real): seq<Fused> {
    var i := IndexOf(Keys(fused, KeyOf), doc.key);
    if i < 0 then fused + [Fused(doc, 0.0 + c)]
    else fused[i := Fused(fused[i].doc, fused[i].score + c)]
  }

  /** The map after the `forEach` over one list with its weight. */
  function AddList(fused: seq<Fused>, list: seq<Doc>, k: nat, weight: real): seq<Fused> {
    if list == [] then fused
    else AddScore(AddList(fused, list[..|list| - 1], k, weight), list[|list| - 1], Contribution(k, |list| - 1, weight))
  }

  /** The map after both loops. */
  function Fuse(listA: seq<Doc>, listB: seq<Doc>, k: nat, weightA: real, weightB: real): seq<Fused> {
    AddList(AddList([], listA, k, weightA), listB, k, weightB)
  }

  /** `.map(item => item.doc)` */
  function DocsOf(fused: seq<Fused>): (docs: seq<Doc>)
    ensures |docs| == |fused|
    ensures forall i :: 0 <= i < |fused| ==> docs[i] == fused[i].doc
  {
    seq(|fused|, i requires 0 <= i < |fused| => fused[i].doc)
  }

  /** The result of `performRRF`. */
  function RRF(listA: seq<Doc>, listB: seq<Doc>, k: nat, weightA: real, weightB: real): seq<Doc> {
    DocsOf(SortDesc(Fuse(listA, listB, k, weightA, weightB), ScoreOf))
  }

  /** The body of either `forEach`. */
  method Bump(fusedScores: seq<Fused>, doc: Doc, rank: nat, k: nat, weight: real) returns (r: seq<Fused>)
    ensures r == AddScore(fusedScores, doc, Contribution(k, rank, weight))
  {
    r := fusedScores;
    var id := doc.key;
    var i := IndexOf(Keys(r, KeyOf), id);
    if i < 0 {
      r := r + [Fused(doc, 0.0)];
      i := |r| - 1;
    }
    r := r[i := Fused(r[i].doc, r[i].score + (1.0 / (k + rank + 1) as real) * weight)];
  }

  /** `performRRF` */
  method PerformRRF(listA: seq<Doc>, listB: seq<Doc>, k: nat, weightA: real, weightB: real) returns (sortedResults: seq<Doc>)
    ensures sortedResults == RRF(listA, listB, k, weightA, weightB)
  {
    var fusedScores: seq<Fused> := [];
    for rank := 0 to |listA|
      invariant fusedScores == AddList([], listA[..rank], k, weightA)
    {
      assert listA[..rank + 1][..rank] == listA[..rank];
      fusedScores := Bump(fusedScores, listA[rank], rank, k, weightA);
    }
    assert listA[..|listA|] == listA;
    var afterA := fusedScores;
    for rank := 0 to |listB|
      invariant fusedScores == AddList(afterA, listB[..rank], k, weightB)
    {
      assert listB[..rank + 1][..rank] == listB[..rank];
      fusedScores := Bump(fusedScores, listB[rank], rank, k, weightB);
    }
    assert listB[..|listB|] == listB;
    sortedResults := DocsOf(SortDesc(fusedScores, ScoreOf));
  }

  // ------------------------------------------------------------------ the ids

  lemma KeysAddScore(fused: seq<Fused>, doc: Doc, c: real)
    ensures Keys(AddScore(fused, doc, c), KeyOf) ==
            if doc.key in Keys(fused, KeyOf) then Keys(fused, KeyOf) else Keys(fused, KeyOf) + [doc.key]
  {
  }

  /** The map's ids are the ids seen so far, once each, in first-seen order. */
  lemma {:induction false} KeysAddList(fused: seq<Fused>, list: seq<Doc>, k: nat, weight: real)
    ensures Keys(AddList(fused, list, k, weight), KeyOf) == DedupOnto(Keys(fused, KeyOf), Keys(list, DocKey))
  {
    if list != [] {
      var p := list[..|list| - 1];
      KeysAddList(fused, p, k, weight);
      KeysAddScore(AddList(fused, p, k, weight), list[|list| - 1], Contribution(k, |list| - 1, weight));
      assert Keys(list, DocKey)[..|list| - 1] == Keys(p, DocKey);
    }
  }

  lemma FuseKeys(listA: seq<Doc>, listB: seq<Doc>, k: nat, weightA: real, weightB: real)
    ensures Keys(Fuse(listA, listB, k, weightA, weightB), KeyOf) == Dedup(Keys(listA, DocKey) + Keys(listB, DocKey))
  {
    KeysAddList([], listA, k, weightA);
    KeysAddList(AddList([], listA, k, weightA), listB, k, weightB);
    DedupOntoAppend([], Keys(listA, DocKey), Keys(listB, DocKey));
  }

  /** Every id of either list comes out exactly once, and nothing else does. */
  lemma RRFIds(listA: seq<Doc>, listB: seq<Doc>, k: nat, weightA: real, weightB: real)
    ensures var out := RRF(listA, listB, k, weightA, weightB);
            && NoDup(Keys(out, DocKey))
            && |out| == |Dedup(Keys(listA, DocKey) + Keys(listB, DocKey))|
            && (forall x :: x in Keys(out, DocKey) ==> x in Keys(listA, DocKey) || x in Keys(listB, DocKey))
            && (forall x :: x in Keys(listA, DocKey) || x in Keys(listB, DocKey) ==> x in Keys(out, DocKey))
  {
    var f := Fuse(listA, listB, k, weightA, weightB);
    var s := SortDesc(f, ScoreOf);
    var out := DocsOf(s);
    var all := Keys(listA, DocKey) + Keys(listB, DocKey);
    FuseKeys(listA, listB, k, weightA, weightB);
    DedupSpec(all);
    SortDescDistinct(f, ScoreOf, KeyOf);
    SortDescMembers(f, ScoreOf);
    assert Keys(out, DocKey) == Keys(s, KeyOf);
    forall x | x in Keys(out, DocKey) ensures x in all {
      var i :| 0 <= i < |s| && Keys(s, KeyOf)[i] == x;
      assert s[i] in f;
      var j :| 0 <= j < |f| && f[j] == s[i];
      assert Keys(f, KeyOf)[j] == x;
    }
    forall x | x in all ensures x in Keys(out, DocKey) {
      assert x in Keys(f, KeyOf);
      var j :| 0 <= j < |f| && Keys(f, KeyOf)[j] == x;
      assert f[j] in s;
      var i :| 0 <= i < |s| && s[i] == f[j];
      assert Keys(s, KeyOf)[i] == x;
    }
  }

  // --------------------------------------------------------------- the scores

  /** The score the map holds for id x, 0 when it has none. */
  function ScoreFor(fused: seq<Fused>, x: string): real {
    var i := IndexOf(Keys(fused, KeyOf), x);
    if i < 0 then 0.0 else fused[i].score
  }

  /** The sum of the contributions of x's occurrences in one list. */
  function Occurrences(list: seq<Doc>, x: string, k: nat, weight: real): real {
    if list == [] then 0.0
    else Occurrences(list[..|list| - 1], x, k, weight) + (if list[|list| - 1].key == x then Contribution(k, |list| - 1, weight) else 0.0)
  }

  /** The fused score of id x: its contributions from both lists. */
  function FusedScore(listA: seq<Doc>, listB: seq<Doc>, k: nat, weightA: real, weightB: real, x: string): real {
    Occurrences(listA, x, k, weightA) + Occurrences(listB, x, k, weightB)
  }

  lemma ScoreAddScore(fused: seq<Fused>, doc: Doc, c: real, x: string)
    ensures ScoreFor(AddScore(fused, doc, c), x) == ScoreFor(fused, x) + (if doc.key == x then c else 0.0)
  {
    var ks := Keys(fused, KeyOf);
    var i := IndexOf(ks, doc.key);
    var j := IndexOf(ks, x);
    if i < 0 {
      IndexOfExtend(ks, doc.key, x);
      assert Keys(AddScore(fused, doc, c), KeyOf) == ks + [doc.key];
    } else {
      assert Keys(AddScore(fused, doc, c), KeyOf) == ks;
    }
  }

  lemma {:induction false} ScoreAddList(fused: seq<Fused>, list: seq<Doc>, k: nat, weight: real, x: string)
    ensures ScoreFor(AddList(fused, list, k, weight), x) == ScoreFor(fused, x) + Occurrences(list, x, k, weight)
  {
    if list != [] {
      var p := list[..|list| - 1];
      ScoreAddList(fused, p, k, weight, x);
      ScoreAddScore(AddList(fused, p, k, weight), list[|list| - 1], Contribution(k, |list| - 1, weight), x);
    }
  }

  /** Each id's score in the map is the sum of its weighted contributions. */
  lemma FuseScore(listA: seq<Doc>, listB: seq<Doc>, k: nat, weightA: real, weightB: real, x: string)
    ensures ScoreFor(Fuse(listA, listB, k, weightA, weightB), x) == FusedScore(listA, listB, k, weightA, weightB, x)
  {
    ScoreAddList([], listA, k, weightA, x);
    ScoreAddList(AddList([], listA, k, weightA), listB, k, weightB, x);
  }

  lemma IndexOfDistinct(ks: seq<string>, j: int)
    requires NoDup(ks) && 0 <= j < |ks|
    ensures IndexOf(ks, ks[j]) == j
  {
    var i := IndexOf(ks, ks[j]);
    assert ks[j] in ks;
  }

  /** Every entry of the map carries the fused score of its id. */
  lemma EntryScores(listA: seq<Doc>, listB: seq<Doc>, k: nat, weightA: real, weightB: real)
    ensures var f := Fuse(listA, listB, k, weightA, weightB);
            forall j :: 0 <= j < |f| ==> f[j].score == FusedScore(listA, listB, k, weightA, weightB, f[j].doc.key)
  {
    var f := Fuse(listA, listB, k, weightA, weightB);
    FuseKeys(listA, listB, k, weightA, weightB);
    DedupSpec(Keys(listA, DocKey) + Keys(listB, DocKey));
    forall j | 0 <= j < |f| ensures f[j].score == FusedScore(listA, listB, k, weightA, weightB, f[j].doc.key) {
      IndexOfDistinct(Keys(f, KeyOf), j);
      FuseScore(listA, listB, k, weightA, weightB, f[j].doc.key);
    }
  }

  /** The output comes in non-increasing order of fused score; among equal
      scores the map's first-seen order is kept. */
  lemma RRFOrder(listA: seq<Doc>, listB: seq<Doc>, k: nat, weightA: real, weightB: real)
    ensures var out := RRF(listA, listB, k, weightA, weightB);
            forall i, j :: 0 <= i < j < |out| ==>
              FusedScore(listA, listB, k, weightA, weightB, out[i].key) >= FusedScore(listA, listB, k, weightA, weightB, out[j].key)
    ensures var f := Fuse(listA, listB, k, weightA, weightB);
            forall c :: WithScore(SortDesc(f, ScoreOf), ScoreOf, c) == WithScore(f, ScoreOf, c)
  {
    var f := Fuse(listA, listB, k, weightA, weightB);
    var s := SortDesc(f, ScoreOf);
    EntryScores(listA, listB, k, weightA, weightB);
    SortDescSorted(f, ScoreOf);
    SortDescMembers(f, ScoreOf);
    forall i | 0 <= i < |s| ensures s[i].score == FusedScore(listA, listB, k, weightA, weightB, s[i].doc.key) {
      assert s[i] in f;
    }
    forall c ensures WithScore(s, ScoreOf, c) == WithScore(f, ScoreOf, c) {
      SortDescStable(f, ScoreOf, c);
    }
  }

  // ------------------------------------------------------------ the documents

  /** The first document of the list with id x. */
  function FirstDoc(list: seq<Doc>, x: string): Option<Doc> {
    if list == [] then None
    else
      var f := FirstDoc(list[..|list| - 1], x);
      if f.Some? then f else if list[|list| - 1].key == x then Some(list[|list| - 1]) else None
  }

  lemma {:induction false} FirstDocSpec(list: seq<Doc>, x: string)
    ensures FirstDoc(list, x).Some? <==> x in Keys(list, DocKey)
    ensures FirstDoc(list, x).Some? ==> FirstDoc(list, x).value == list[IndexOf(Keys(list, DocKey), x)]
  {
    if list != [] {
      var p := list[..|list| - 1];
      FirstDocSpec(p, x);
      var ks := Keys(list, DocKey);
      assert ks == Keys(p, DocKey) + [list[|list| - 1].key];
      IndexOfExtend(Keys(p, DocKey), list[|list| - 1].key, x);
    }
  }

  /** The document the map holds for id x. */
  function DocFor(fused: seq<Fused>, x: string): Option<Doc> {
    var i := IndexOf(Keys(fused, KeyOf), x);
    if i < 0 then None else Some(fused[i].doc)
  }

  lemma DocAddScore(fused: seq<Fused>, doc: Doc, c: real, x: string)
    ensures DocFor(AddScore(fused, doc, c), x) ==
            if DocFor(fused, x).Some? then DocFor(fused, x) else if doc.key == x then Some(doc) else None
  {
    var ks := Keys(fused, KeyOf);
    var i := IndexOf(ks, doc.key);
    if i < 0 {
      IndexOfExtend(ks, doc.key, x);
      assert Keys(AddScore(fused, doc, c), KeyOf) == ks + [doc.key];
    } else {
      assert Keys(AddScore(fused, doc, c), KeyOf) == ks;
    }
  }

  lemma {:induction false} DocAddList(fused: seq<Fused>, list: seq<Doc>, k: nat, weight: real, x: string)
    ensures DocFor(AddList(fused, list, k, weight), x) ==
            if DocFor(fused, x).Some? then DocFor(fused, x) else FirstDoc(list, x)
  {
    if list != [] {
      var p := list[..|list| - 1];
      DocAddList(fused, p, k, weight, x);
      DocAddScore(AddList(fused, p, k, weight), list[|list| - 1], Contribution(k, |list| - 1, weight), x);
    }
  }

  /** An entry of the map holds the first document seen with its id. */
  lemma FusedDoc(listA: seq<Doc>, listB: seq<Doc>, k: nat, weightA: real, weightB: real, e: Fused)
    requires e in Fuse(listA, listB, k, weightA, weightB)
    ensures Some(e.doc) == if FirstDoc(listA, e.doc.key).Some? then FirstDoc(listA, e.doc.key) else FirstDoc(listB, e.doc.key)
  {
    var f := Fuse(listA, listB, k, weightA, weightB);
    var x := e.doc.key;
    FuseKeys(listA, listB, k, weightA, weightB);
    DedupSpec(Keys(listA, DocKey) + Keys(listB, DocKey));
    var j :| 0 <= j < |f| && f[j] == e;
    IndexOfDistinct(Keys(f, KeyOf), j);
    assert DocFor(f, x) == Some(e.doc);
    DocAddList([], listA, k, weightA, x);
    DocAddList(AddList([], listA, k, weightA), listB, k, weightB, x);
  }

  /** The document output for an id is the first one seen with it, list A
      first. */
  lemma RRFKeepsFirstDoc(listA: seq<Doc>, listB: seq<Doc>, k: nat, weightA: real, weightB: real)
    ensures var out := RRF(listA, listB, k, weightA, weightB);
            forall i :: 0 <= i < |out| ==>
              Some(out[i]) == if FirstDoc(listA, out[i].key).Some? then FirstDoc(listA, out[i].key) else FirstDoc(listB, out[i].key)
  {
    var f := Fuse(listA, listB, k, weightA, weightB);
    var s := SortDesc(f, ScoreOf);
    SortDescMembers(f, ScoreOf);
    forall i | 0 <= i < |s|
      ensures Some(s[i].doc) == if FirstDoc(listA, s[i].doc.key).Some? then FirstDoc(listA, s[i].doc.key) else FirstDoc(listB, s[i].doc.key)
    {
      assert s[i] in f;
      FusedDoc(listA, listB, k, weightA, weightB, s[i]);
    }
  }

  // ------------------------------------------------------------- the top result

  lemma ContributionDecreases(k: nat, r1: nat, r2: nat, w: real)
    requires r1 < r2 && w > 0.0
    ensures 0.0 < Contribution(k, r2, w) < Contribution(k, r1, w)
  {
    var a, b := (k + r1 + 1) as real, (k + r2 + 1) as real;
    assert 1.0 / b < 1.0 / a by {
      assert (1.0 / b) * b == 1.0 && (1.0 / a) * a == 1.0;
      assert (1.0 / b) * a < (1.0 / b) * b;
    }
  }

  /** In a list without repeated ids, an id occurs once, at its position. */
  lemma {:induction false} OccurrencesDistinct(list: seq<Doc>, x: string, k: nat, weight: real)
    requires NoDup(Keys(list, DocKey))
    ensures Occurrences(list, x, k, weight) ==
            if x in Keys(list, DocKey) then Contribution(k, IndexOf(Keys(list, DocKey), x), weight) else 0.0
  {
    if list != [] {
      var p := list[..|list| - 1];
      var kp := Keys(p, DocKey);
      assert Keys(list, DocKey) == kp + [list[|list| - 1].key];
      assert NoDup(kp);
      OccurrencesDistinct(p, x, k, weight);
      IndexOfExtend(kp, list[|list| - 1].key, x);
    }
  }

  /** An id's contribution from a list without repeats is largest at rank 0. */
  lemma OccurrencesBelowTop(list: seq<Doc>, x: string, k: nat, weight: real)
    requires NoDup(Keys(list, DocKey)) && list != [] && weight > 0.0 && x != list[0].key
    ensures 0.0 <= Occurrences(list, x, k, weight) < Contribution(k, 0, weight)
  {
    OccurrencesDistinct(list, x, k, weight);
    ContributionDecreases(k, 0, 1, weight);
    if x in Keys(list, DocKey) {
      var i := IndexOf(Keys(list, DocKey), x);
      assert i != 0;
      ContributionDecreases(k, 0, i, weight);
    }
  }

  /** The first id of the first list is among the fused results. */
  lemma RRFHasFirst(listA: seq<Doc>, listB: seq<Doc>, k: nat, weightA: real, weightB: real)
    requires listA != []
    ensures listA[0].key in Keys(RRF(listA, listB, k, weightA, weightB), DocKey)
  {
    RRFIds(listA, listB, k, weightA, weightB);
    assert Keys(listA, DocKey)[0] == listA[0].key;
  }

  /** An earlier fused result never has a lower fused score. */
  lemma RRFOrderAt(listA: seq<Doc>, listB: seq<Doc>, k: nat, weightA: real, weightB: real, i: int, j: int)
    requires 0 <= i < j < |RRF(listA, listB, k, weightA, weightB)|
    ensures var out := RRF(listA, listB, k, weightA, weightB);
            FusedScore(listA, listB, k, weightA, weightB, out[i].key) >= FusedScore(listA, listB, k, weightA, weightB, out[j].key)
  {
    RRFOrder(listA, listB, k, weightA, weightB);
  }

  /** With positive weights and no repeated id within a list, an id ranked
      first by both searches is the first fused result. */
  lemma TopOfBothIsFirst(listA: seq<Doc>, listB: seq<Doc>, k: nat, weightA: real, weightB: real)
    requires NoDup(Keys(listA, DocKey)) && NoDup(Keys(listB, DocKey))
    requires listA != [] && listB != [] && listA[0].key == listB[0].key
    requires weightA > 0.0 && weightB > 0.0
    ensures RRF(listA, listB, k, weightA, weightB) != []
    ensures RRF(listA, listB, k, weightA, weightB)[0].key == listA[0].key
  {
    var x := listA[0].key;
    var out := RRF(listA, listB, k, weightA, weightB);
    RRFHasFirst(listA, listB, k, weightA, weightB);
    var j :| 0 <= j < |out| && Keys(out, DocKey)[j] == x;
    var y := out[0].key;
    if y != x {
      assert Keys(out, DocKey)[0] == y;
      assert 0 < j;
      assert j < |out|;
      RRFOrderAt(listA, listB, k, weightA, weightB, 0, j);
      OccurrencesDistinct(listA, x, k, weightA);
      OccurrencesDistinct(listB, x, k, weightB);
      assert Keys(listA, DocKey)[0] == x && Keys(listB, DocKey)[0] == x;
      assert IndexOf(Keys(listA, DocKey), x) == 0 && IndexOf(Keys(listB, DocKey), x) == 0;
      var top := Contribution(k, 0, weightA) + Contribution(k, 0, weightB);
      assert FusedScore(listA, listB, k, weightA, weightB, x) == top;
      OccurrencesBelowTop(listA, y, k, weightA);
      OccurrencesBelowTop(listB, y, k, weightB);
    }
  }

  // ------------------------------------------------------- context and references

  datatype RefItem = RefItem(title: string, url: Option<string>, cite: Option<string>)

  /** The block one context document contributes. */
  function DocumentBlock(d: Doc): string {
    "--- DOCUMENT START ---\nID: " + d.id.GetOr("Unknown ID") + "\nTITLE: " + d.title.GetOr("Unknown Title") +
    "\nCONTENT:\n" + d.content.GetOr("") + "\n--- DOCUMENT END ---"
  }

  function Blocks(docs: seq<Doc>): (bs: seq<string>)
    ensures |bs| == |docs|
    ensures forall i :: 0 <= i < |docs| ==> bs[i] == DocumentBlock(docs[i])
  {
    seq(|docs|, i requires 0 <= i < |docs| => DocumentBlock(docs[i]))
  }

  function Reference(d: Doc): RefItem {
    RefItem(d.title.GetOr("Unknown statute"), d.url, d.id)
  }

  function References(docs: seq<Doc>): (rs: seq<RefItem>)
    ensures |rs| == |docs|
    ensures forall i :: 0 <= i < |docs| ==> rs[i] == Reference(docs[i])
  {
    seq(|docs|, i requires 0 <= i < |docs| => Reference(docs[i]))
  }

  /** What `retrieve` returns once the fused results are known. */
  datatype Retrieved = Retrieved(context: string, references: seq<RefItem>)

  function Present(fusedResults: seq<Doc>): Retrieved {
    var contextDocs := Slice(fusedResults, 15);
    var referenceDocs := Slice(fusedResults, 3);
    Retrieved(Join(Blocks(contextDocs), "\n\n"), References(referenceDocs))
  }

  /** The references describe the first three fused results, which are also the
      first three documents of the context. */
  lemma PresentSpec(fusedResults: seq<Doc>)
    ensures |Present(fusedResults).references| == if |fusedResults| < 3 then |fusedResults| else 3
    ensures forall i :: 0 <= i < |Present(fusedResults).references| ==>
              Present(fusedResults).references[i] == Reference(fusedResults[i]) &&
              fusedResults[i] == Slice(fusedResults, 15)[i]
    ensures Slice(fusedResults, 3) <= Slice(fusedResults, 15)
  {
  }

  /** The end of `retrieve`: fusion with k = 60, weight 1 for the vector
      results and 3 for the keyword results, then the two slices. */
  function RetrieveOutput(vectorResults: seq<Doc>, keywordResults: seq<Doc>): Retrieved {
    Present(RRF(vectorResults, keywordResults, 60, 1.0, 3.0))
  }

  /** A document both searches rank first is the first reference, described
      from the vector search's copy. */
  lemma TopReference(vectorResults: seq<Doc>, keywordResults: seq<Doc>)
    requires NoDup(Keys(vectorResults, DocKey)) && NoDup(Keys(keywordResults, DocKey))
    requires vectorResults != [] && keywordResults != [] && vectorResults[0].key == keywordResults[0].key
    ensures RetrieveOutput(vectorResults, keywordResults).references != []
    ensures RetrieveOutput(vectorResults, keywordResults).references[0] == Reference(vectorResults[0])
  {
    var out := RRF(vectorResults, keywordResults, 60, 1.0, 3.0);
    TopOfBothIsFirst(vectorResults, keywordResults, 60, 1.0, 3.0);
    RRFKeepsFirstDoc(vectorResults, keywordResults, 60, 1.0, 3.0);
    var x := vectorResults[0].key;
    FirstDocSpec(vectorResults, x);
    assert Keys(vectorResults, DocKey)[0] == x;
    PresentSpec(out);
  }
}
