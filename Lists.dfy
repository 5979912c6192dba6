/** The list idioms the TypeScript sources build their results with, each defined
    once: `slice(0, n)`, `Array.from(new Set(...))`, a `Map` keyed by some field
    that keeps the entry with the strictly greatest score (and keeps the key's
    first position when the value is replaced), the stable `Array.prototype.sort`
    in descending order of a score, and `filter` on a score threshold. */
module Lists {

  /** `s.slice(0, n)` for an integer n; a negative n counts from the end. */
  function Slice<T>(s: seq<T>, n: int): (r: seq<T>)
    ensures r <= s
    ensures 0 <= n ==> |r| == (if n < |s| then n else |s|)
    ensures n < 0 ==> |r| == (if |s| + n > 0 then |s| + n else 0)
  {
    if n >= 0 then (if n < |s| then s[..n] else s)
    else if |s| + n > 0 then s[..|s| + n]
    else []
  }

  predicate NoDup<T(==)>(s: seq<T>) {
    forall i, j :: 0 <= i < j < |s| ==> s[i] != s[j]
  }

  /** The position of the first occurrence of x in s, or -1. */
  function IndexOf<T(==)>(s: seq<T>, x: T): (i: int)
    ensures -1 <= i < |s|
    ensures 0 <= i ==> s[i] == x && x !in s[..i]
    ensures i < 0 ==> x !in s
  {
    if s == [] then -1
    else if s[0] == x then 0
    else
      var j := IndexOf(s[1..], x);
      if j < 0 then -1 else j + 1
  }

  /** Adds the elements of s in order to acc, skipping those already present:
      `s.forEach(x => set.add(x))` on a JavaScript Set that holds acc. */
  function DedupOnto<T(==)>(acc: seq<T>, s: seq<T>): seq<T> {
    if s == [] then acc
    else
      var d := DedupOnto(acc, s[..|s| - 1]);
      if s[|s| - 1] in d then d else d + [s[|s| - 1]]
  }

  /** `Array.from(new Set(s))` */
  function Dedup<T(==)>(s: seq<T>): seq<T> {
    DedupOnto([], s)
  }

  lemma {:induction false} DedupOntoFacts<T>(acc: seq<T>, s: seq<T>)
    ensures |acc| <= |DedupOnto(acc, s)| && DedupOnto(acc, s)[..|acc|] == acc
    ensures forall x :: x in DedupOnto(acc, s) <==> x in acc || x in s
    ensures NoDup(acc) ==> NoDup(DedupOnto(acc, s))
  {
    if s != [] {
      DedupOntoFacts(acc, s[..|s| - 1]);
      assert s == s[..|s| - 1] + [s[|s| - 1]];
    }
  }

  /** Adding a + b is adding a, then b. */
  lemma {:induction false} DedupOntoAppend<T>(acc: seq<T>, a: seq<T>, b: seq<T>)
    ensures DedupOnto(acc, a + b) == DedupOnto(DedupOnto(acc, a), b)
  {
    if b == [] {
      assert a + b == a;
    } else {
      DedupOntoAppend(acc, a, b[..|b| - 1]);
      assert (a + b)[..|a + b| - 1] == a + b[..|b| - 1];
    }
  }

  /** A set's elements come out once each, in the order of first insertion. */
  lemma {:induction false} DedupSpec<T>(s: seq<T>)
    ensures NoDup(Dedup(s))
    ensures forall x :: x in Dedup(s) ==> x in s
    ensures forall x :: x in s ==> x in Dedup(s)
    ensures forall i, j :: 0 <= i < j < |Dedup(s)| ==> IndexOf(s, Dedup(s)[i]) < IndexOf(s, Dedup(s)[j])
  {
    DedupOntoFacts([], s);
    if s != [] {
      var p, x := s[..|s| - 1], s[|s| - 1];
      DedupSpec(p);
      assert s == p + [x];
      var d := Dedup(p);
      forall y | y in p ensures IndexOf(s, y) == IndexOf(p, y) {
        IndexOfExtend(p, x, y);
      }
      if x !in d {
        IndexOfExtend(p, x, x);
        forall i | 0 <= i < |d| ensures IndexOf(s, d[i]) < IndexOf(s, x) {
          assert d[i] in d;
          assert d[i] in p;
        }
      }
    }
  }

  /** Looking x up after a new first element. */
  lemma IndexOfCons<T>(x: T, s: seq<T>, y: T)
    ensures IndexOf([x] + s, y) == if x == y then 0 else if IndexOf(s, y) < 0 then -1 else IndexOf(s, y) + 1
  {
    assert ([x] + s)[1..] == s;
  }

  lemma IndexOfExtend<T>(p: seq<T>, x: T, y: T)
    ensures y in p ==> IndexOf(p + [x], y) == IndexOf(p, y)
    ensures y !in p && y == x ==> IndexOf(p + [x], y) == |p|
  {
    var i, k := IndexOf(p + [x], y), IndexOf(p, y);
    if y in p {
      assert (p + [x])[k] == y;
      assert forall m :: 0 <= m < i ==> (p + [x])[m] != y;
      assert forall m :: 0 <= m < k ==> p[m] != y;
      assert i <= k;
      assert (p + [x])[i] == y;
      assert i >= k;
    } else if y == x {
      assert (p + [x])[|p|] == y;
    }
  }

  /** `s.map(key)` */
  function Keys<T, K>(s: seq<T>, key: T -> K): (ks: seq<K>)
    ensures |ks| == |s|
    ensures forall i :: 0 <= i < |s| ==> ks[i] == key(s[i])
  {
    seq(|s|, i requires 0 <= i < |s| => key(s[i]))
  }

  /** Concatenation regroups. */
  lemma AppendAssoc<T>(a: seq<T>, b: seq<T>, c: seq<T>)
    ensures a + (b + c) == (a + b) + c
  { }

  lemma KeysCons<T, K>(x: T, s: seq<T>, key: T -> K)
    ensures Keys([x] + s, key) == [key(x)] + Keys(s, key)
  {
  }

  lemma KeysSnoc<T, K>(s: seq<T>, x: T, key: T -> K)
    ensures Keys(s + [x], key) == Keys(s, key) + [key(x)]
  { }

  /** A prefix keeps distinct keys and descending order. */
  lemma PrefixKeeps<T, K>(s: seq<T>, t: seq<T>, score: T -> real, key: T -> K)
    requires t <= s
    ensures NoDup(Keys(s, key)) ==> NoDup(Keys(t, key))
    ensures SortedDesc(s, score) ==> SortedDesc(t, score)
  {
    assert forall i :: 0 <= i < |t| ==> t[i] == s[i];
  }

  lemma NoDupCons<T>(x: T, s: seq<T>)
    requires NoDup(s) && forall j :: 0 <= j < |s| ==> s[j] != x
    ensures NoDup([x] + s)
  {
  }

  /** One `Map` update: `existing = map.get(key(x)); if (!existing || score(x) >
      score(existing)) map.set(key(x), x)`, the map being the list of its values
      in key-insertion order. */
  function Upsert<T, K(==)>(kept: seq<T>, x: T, key: T -> K, score: T -> real): seq<T> {
    var p := IndexOf(Keys(kept, key), key(x));
    if p < 0 then kept + [x]
    else if score(x) > score(kept[p]) then kept[p := x]
    else kept
  }

  /** The values of that `Map` after all of s has been offered to it in order. */
  function KeepBest<T, K(==)>(s: seq<T>, key: T -> K, score: T -> real): seq<T> {
    if s == [] then []
    else Upsert(KeepBest(s[..|s| - 1], key, score), s[|s| - 1], key, score)
  }

  /** The kept values have one entry per key, in the order in which the keys
      first occur. */
  lemma {:induction false} KeepBestKeys<T, K>(s: seq<T>, key: T -> K, score: T -> real)
    ensures Keys(KeepBest(s, key, score), key) == Dedup(Keys(s, key))
  {
    if s != [] {
      var n := |s|;
      var p, x := s[..n - 1], s[n - 1];
      KeepBestKeys(p, key, score);
      var r := KeepBest(p, key, score);
      var kr := Keys(r, key);
      var ks := Keys(s, key);
      assert ks[..n - 1] == Keys(p, key);
      var q := IndexOf(kr, key(x));
      var t := KeepBest(s, key, score);
      if q < 0 {
        assert Keys(t, key) == kr + [key(x)];
      } else if score(x) > score(r[q]) {
        assert Keys(t, key) == kr;
      }
    }
  }

  /** s[i] has the greatest score among the elements with its key, and it is the
      first of them to reach that score. */
  ghost predicate FirstBest<T, K>(s: seq<T>, i: int, key: T -> K, score: T -> real)
    requires 0 <= i < |s|
  {
    && (forall m :: 0 <= m < |s| && key(s[m]) == key(s[i]) ==> score(s[m]) <= score(s[i]))
    && (forall m :: 0 <= m < i && key(s[m]) == key(s[i]) ==> score(s[m]) < score(s[i]))
  }

  /** y is an element of s that FirstBest picks for its key. */
  ghost predicate Chosen<T, K>(s: seq<T>, y: T, key: T -> K, score: T -> real) {
    exists i :: 0 <= i < |s| && s[i] == y && FirstBest(s, i, key, score)
  }

  lemma FirstBestKeep<T, K>(p: seq<T>, x: T, i: int, key: T -> K, score: T -> real)
    requires 0 <= i < |p| && FirstBest(p, i, key, score)
    requires key(x) == key(p[i]) ==> score(x) <= score(p[i])
    ensures FirstBest(p + [x], i, key, score)
  {
    var s := p + [x];
    assert forall m :: 0 <= m < |p| ==> s[m] == p[m];
  }

  lemma FirstBestLast<T, K>(p: seq<T>, x: T, key: T -> K, score: T -> real)
    requires forall m :: 0 <= m < |p| && key(p[m]) == key(x) ==> score(p[m]) < score(x)
    ensures FirstBest(p + [x], |p|, key, score)
  {
    var s := p + [x];
    assert forall m :: 0 <= m < |p| ==> s[m] == p[m];
  }

  /** One `Map` update keeps every value chosen: the values of r are chosen in
      p, one per key of p in first-occurrence order, and offering x to r gives
      values chosen in p + [x]. */
  lemma UpsertChosen<T, K>(p: seq<T>, r: seq<T>, x: T, key: T -> K, score: T -> real)
    requires Keys(r, key) == Dedup(Keys(p, key))
    requires forall j :: 0 <= j < |r| ==> Chosen(p, r[j], key, score)
    ensures forall j :: 0 <= j < |Upsert(r, x, key, score)| ==> Chosen(p + [x], Upsert(r, x, key, score)[j], key, score)
  {
    var q := IndexOf(Keys(r, key), key(x));
    if q < 0 {
      UpsertChosenNew(p, r, x, key, score);
    } else if score(x) > score(r[q]) {
      UpsertChosenReplace(p, r, x, key, score);
    } else {
      UpsertChosenKeep(p, r, x, key, score);
    }
  }

  /** A new key: x is appended and is the first best of its key. */
  lemma UpsertChosenNew<T, K>(p: seq<T>, r: seq<T>, x: T, key: T -> K, score: T -> real)
    requires Keys(r, key) == Dedup(Keys(p, key))
    requires forall j :: 0 <= j < |r| ==> Chosen(p, r[j], key, score)
    requires IndexOf(Keys(r, key), key(x)) < 0
    ensures forall j :: 0 <= j < |Upsert(r, x, key, score)| ==> Chosen(p + [x], Upsert(r, x, key, score)[j], key, score)
  {
    var kp := Keys(p, key);
    DedupSpec(kp);
    var t := Upsert(r, x, key, score);
    assert t == r + [x];
    assert key(x) !in kp;
    forall j | 0 <= j < |t| ensures Chosen(p + [x], t[j], key, score) {
      if j < |r| {
        var i :| 0 <= i < |p| && p[i] == r[j] && FirstBest(p, i, key, score);
        assert kp[i] == key(p[i]);
        FirstBestKeep(p, x, i, key, score);
      } else {
        forall m | 0 <= m < |p| ensures key(p[m]) != key(x) {
          assert kp[m] == key(p[m]);
        }
        FirstBestLast(p, x, key, score);
      }
    }
  }

  /** A known key and a strictly higher score: x replaces that key's value. */
  lemma UpsertChosenReplace<T, K>(p: seq<T>, r: seq<T>, x: T, key: T -> K, score: T -> real)
    requires Keys(r, key) == Dedup(Keys(p, key))
    requires forall j :: 0 <= j < |r| ==> Chosen(p, r[j], key, score)
    requires var q := IndexOf(Keys(r, key), key(x)); 0 <= q && score(x) > score(r[q])
    ensures forall j :: 0 <= j < |Upsert(r, x, key, score)| ==> Chosen(p + [x], Upsert(r, x, key, score)[j], key, score)
  {
    var kr := Keys(r, key);
    DedupSpec(Keys(p, key));
    var q := IndexOf(kr, key(x));
    var t := Upsert(r, x, key, score);
    assert t == r[q := x];
    var i0 :| 0 <= i0 < |p| && p[i0] == r[q] && FirstBest(p, i0, key, score);
    forall j | 0 <= j < |t| ensures Chosen(p + [x], t[j], key, score) {
      if j == q {
        FirstBestLast(p, x, key, score);
      } else {
        var i :| 0 <= i < |p| && p[i] == r[j] && FirstBest(p, i, key, score);
        assert kr[j] != kr[q];
        FirstBestKeep(p, x, i, key, score);
      }
    }
  }

  /** A known key and no higher score: nothing changes. */
  lemma UpsertChosenKeep<T, K>(p: seq<T>, r: seq<T>, x: T, key: T -> K, score: T -> real)
    requires Keys(r, key) == Dedup(Keys(p, key))
    requires forall j :: 0 <= j < |r| ==> Chosen(p, r[j], key, score)
    requires var q := IndexOf(Keys(r, key), key(x)); 0 <= q && score(x) <= score(r[q])
    ensures forall j :: 0 <= j < |Upsert(r, x, key, score)| ==> Chosen(p + [x], Upsert(r, x, key, score)[j], key, score)
  {
    var kr := Keys(r, key);
    DedupSpec(Keys(p, key));
    var q := IndexOf(kr, key(x));
    assert Upsert(r, x, key, score) == r;
    forall j | 0 <= j < |r| ensures Chosen(p + [x], r[j], key, score) {
      var i :| 0 <= i < |p| && p[i] == r[j] && FirstBest(p, i, key, score);
      if key(x) == key(r[j]) {
        assert kr[j] == kr[q];
      }
      FirstBestKeep(p, x, i, key, score);
    }
  }

  /** Each kept value is the first element of s with the greatest score for its
      key. */
  lemma {:induction false} KeepBestChosen<T, K>(s: seq<T>, key: T -> K, score: T -> real)
    ensures forall j :: 0 <= j < |KeepBest(s, key, score)| ==> Chosen(s, KeepBest(s, key, score)[j], key, score)
  {
    if s != [] {
      var p, x := s[..|s| - 1], s[|s| - 1];
      assert s == p + [x];
      KeepBestChosen(p, key, score);
      KeepBestKeys(p, key, score);
      assert KeepBest(s, key, score) == Upsert(KeepBest(p, key, score), x, key, score);
      UpsertChosen(p, KeepBest(p, key, score), x, key, score);
    }
  }

  predicate SortedDesc<T>(s: seq<T>, score: T -> real) {
    forall i, j :: 0 <= i < j < |s| ==> score(s[i]) >= score(s[j])
  }

  /** Inserts x after every element whose score is at least x's. */
  function InsertDesc<T>(x: T, s: seq<T>, score: T -> real): seq<T> {
    if s == [] || score(s[0]) < score(x) then [x] + s
    else [s[0]] + InsertDesc(x, s[1..], score)
  }

  /** `s.sort((a, b) => score(b) - score(a))`: JavaScript's sort is stable, so
      its result is the one this insertion sort computes. */
  function SortDesc<T>(s: seq<T>, score: T -> real): seq<T> {
    if s == [] then []
    else InsertDesc(s[|s| - 1], SortDesc(s[..|s| - 1], score), score)
  }

  /** `s.filter(x => score(x) == c)` */
  function WithScore<T>(s: seq<T>, score: T -> real, c: real): seq<T> {
    if s == [] then []
    else (if score(s[0]) == c then [s[0]] else []) + WithScore(s[1..], score, c)
  }

  lemma {:induction false} WithScoreAppend<T>(a: seq<T>, b: seq<T>, score: T -> real, c: real)
    ensures WithScore(a + b, score, c) == WithScore(a, score, c) + WithScore(b, score, c)
  {
    if a != [] {
      WithScoreAppend(a[1..], b, score, c);
      assert (a + b)[1..] == a[1..] + b;
    } else {
      assert a + b == b;
    }
  }

  lemma {:induction false} WithScoreNone<T>(s: seq<T>, score: T -> real, c: real)
    requires forall i :: 0 <= i < |s| ==> score(s[i]) != c
    ensures WithScore(s, score, c) == []
  {
    if s != [] {
      WithScoreNone(s[1..], score, c);
    }
  }

  lemma {:induction false} InsertDescPerm<T>(x: T, s: seq<T>, score: T -> real)
    ensures multiset(InsertDesc(x, s, score)) == multiset(s) + multiset{x}
  {
    if s == [] || score(s[0]) < score(x) {
      assert InsertDesc(x, s, score) == [x] + s;
    } else {
      var u := InsertDesc(x, s[1..], score);
      assert InsertDesc(x, s, score) == [s[0]] + u;
      InsertDescPerm(x, s[1..], score);
      assert s == [s[0]] + s[1..];
    }
  }

  /** Inserting below a bound keeps every score below it. */
  lemma {:induction false} InsertDescBelow<T>(x: T, s: seq<T>, score: T -> real, b: real)
    requires score(x) <= b && forall i :: 0 <= i < |s| ==> score(s[i]) <= b
    ensures forall i :: 0 <= i < |InsertDesc(x, s, score)| ==> score(InsertDesc(x, s, score)[i]) <= b
  {
    var t := InsertDesc(x, s, score);
    if s == [] || score(s[0]) < score(x) {
      assert forall j :: 0 < j < |t| ==> t[j] == s[j - 1];
    } else {
      var u := InsertDesc(x, s[1..], score);
      InsertDescBelow(x, s[1..], score, b);
      assert forall j :: 0 < j < |t| ==> t[j] == u[j - 1];
    }
  }

  lemma {:induction false} InsertDescSorted<T>(x: T, s: seq<T>, score: T -> real)
    requires SortedDesc(s, score)
    ensures SortedDesc(InsertDesc(x, s, score), score)
  {
    var t := InsertDesc(x, s, score);
    if s == [] || score(s[0]) < score(x) {
      assert forall j :: 0 < j < |t| ==> t[j] == s[j - 1];
    } else {
      var u := InsertDesc(x, s[1..], score);
      InsertDescSorted(x, s[1..], score);
      InsertDescBelow(x, s[1..], score, score(s[0]));
      assert forall j :: 0 < j < |t| ==> t[j] == u[j - 1];
    }
  }

  lemma {:induction false} InsertDescStable<T>(x: T, s: seq<T>, score: T -> real, c: real)
    requires SortedDesc(s, score)
    ensures WithScore(InsertDesc(x, s, score), score, c) ==
            WithScore(s, score, c) + (if score(x) == c then [x] else [])
  {
    var t := InsertDesc(x, s, score);
    if s == [] || score(s[0]) < score(x) {
      assert t[1..] == s;
      if score(x) == c {
        assert forall i :: 0 <= i < |s| ==> score(s[i]) <= score(s[0]);
        WithScoreNone(s, score, c);
      }
    } else {
      var u := InsertDesc(x, s[1..], score);
      InsertDescStable(x, s[1..], score, c);
      assert t[1..] == u;
    }
  }

  lemma {:induction false} SortDescPerm<T>(s: seq<T>, score: T -> real)
    ensures multiset(SortDesc(s, score)) == multiset(s)
  {
    if s != [] {
      var p, x := s[..|s| - 1], s[|s| - 1];
      SortDescPerm(p, score);
      InsertDescPerm(x, SortDesc(p, score), score);
      assert s == p + [x];
    }
  }

  lemma {:induction false} SortDescSorted<T>(s: seq<T>, score: T -> real)
    ensures SortedDesc(SortDesc(s, score), score)
  {
    if s != [] {
      SortDescSorted(s[..|s| - 1], score);
      InsertDescSorted(s[|s| - 1], SortDesc(s[..|s| - 1], score), score);
    }
  }

  lemma {:induction false} SortDescStable<T>(s: seq<T>, score: T -> real, c: real)
    ensures WithScore(SortDesc(s, score), score, c) == WithScore(s, score, c)
  {
    if s != [] {
      var p, x := s[..|s| - 1], s[|s| - 1];
      SortDescStable(p, score, c);
      SortDescSorted(p, score);
      InsertDescStable(x, SortDesc(p, score), score, c);
      assert s == p + [x];
      WithScoreAppend(p, [x], score, c);
    }
  }

  /** The sort orders by non-increasing score, permutes its input, and keeps the
      input order among elements of equal score. */
  lemma SortDescSpec<T>(s: seq<T>, score: T -> real, c: real)
    ensures SortedDesc(SortDesc(s, score), score)
    ensures multiset(SortDesc(s, score)) == multiset(s)
    ensures WithScore(SortDesc(s, score), score, c) == WithScore(s, score, c)
  {
    SortDescSorted(s, score);
    SortDescPerm(s, score);
    SortDescStable(s, score, c);
  }

  /** A prefix of a list sorted by non-increasing score holds its top: every
      element left out scores no more than any element kept. */
  lemma TopPrefix<T>(sorted: seq<T>, out: seq<T>, score: T -> real)
    requires SortedDesc(sorted, score) && out <= sorted
    ensures forall r, o :: r in sorted && r !in out && o in out ==> score(o) >= score(r)
  {
    forall r, o | r in sorted && r !in out && o in out ensures score(o) >= score(r) {
      var j :| 0 <= j < |sorted| && sorted[j] == r;
      var i :| 0 <= i < |out| && out[i] == o;
      assert sorted[i] == o;
    }
  }

  lemma SortDescMembers<T>(s: seq<T>, score: T -> real)
    ensures |SortDesc(s, score)| == |s|
    ensures forall y :: y in SortDesc(s, score) ==> y in s
    ensures forall y :: y in s ==> y in SortDesc(s, score)
  {
    SortDescPerm(s, score);
    assert multiset(SortDesc(s, score)) == multiset(s);
    assert |multiset(SortDesc(s, score))| == |multiset(s)|;
    forall y | y in SortDesc(s, score) ensures y in s {
      assert y in multiset(SortDesc(s, score));
    }
    forall y | y in s ensures y in SortDesc(s, score) {
      assert y in multiset(s);
    }
  }

  lemma {:induction false} InsertDescDistinct<T, K>(x: T, s: seq<T>, score: T -> real, key: T -> K)
    requires NoDup(Keys(s, key)) && key(x) !in Keys(s, key)
    ensures NoDup(Keys(InsertDesc(x, s, score), key))
  {
    var t := InsertDesc(x, s, score);
    if s == [] || score(s[0]) < score(x) {
      assert t == [x] + s;
      KeysCons(x, s, key);
      NoDupCons(key(x), Keys(s, key));
    } else {
      var u := InsertDesc(x, s[1..], score);
      assert Keys(s[1..], key) == Keys(s, key)[1..];
      InsertDescDistinct(x, s[1..], score, key);
      InsertDescPerm(x, s[1..], score);
      assert t == [s[0]] + u;
      KeysCons(s[0], u, key);
      forall j | 0 <= j < |u| ensures key(u[j]) != key(s[0]) {
        assert u[j] in multiset(u);
        if u[j] != x {
          assert u[j] in multiset(s[1..]);
          var m :| 0 <= m < |s[1..]| && s[1..][m] == u[j];
          assert Keys(s, key)[m + 1] == key(u[j]);
        } else {
          assert Keys(s, key)[0] == key(s[0]);
        }
      }
      NoDupCons(key(s[0]), Keys(u, key));
    }
  }

  /** Sorting does not repeat a key. */
  lemma {:induction false} SortDescDistinct<T, K>(s: seq<T>, score: T -> real, key: T -> K)
    requires NoDup(Keys(s, key))
    ensures NoDup(Keys(SortDesc(s, score), key))
  {
    if s != [] {
      var p, x := s[..|s| - 1], s[|s| - 1];
      assert Keys(p, key) == Keys(s, key)[..|s| - 1];
      SortDescDistinct(p, score, key);
      SortDescMembers(p, score);
      forall j | 0 <= j < |SortDesc(p, score)| ensures Keys(SortDesc(p, score), key)[j] != key(x) {
        var y := SortDesc(p, score)[j];
        assert y in SortDesc(p, score);
        assert y in p;
        var m :| 0 <= m < |p| && p[m] == y;
        assert Keys(s, key)[m] == key(y) && Keys(s, key)[|s| - 1] == key(x);
      }
      InsertDescDistinct(x, SortDesc(p, score), score, key);
    }
  }

  /** `s.filter(x => score(x) >= m)` */
  function AtLeast<T>(s: seq<T>, score: T -> real, m: real): (r: seq<T>)
    ensures forall i :: 0 <= i < |r| ==> r[i] in s && score(r[i]) >= m
    ensures forall i :: 0 <= i < |s| && score(s[i]) >= m ==> s[i] in r
  {
    if s == [] then []
    else (if score(s[0]) >= m then [s[0]] else []) + AtLeast(s[1..], score, m)
  }

  /** The filter keeps the input order. */
  lemma {:induction false} AtLeastAppend<T>(a: seq<T>, b: seq<T>, score: T -> real, m: real)
    ensures AtLeast(a + b, score, m) == AtLeast(a, score, m) + AtLeast(b, score, m)
  {
    if a == [] {
      assert a + b == b;
    } else {
      var h := if score(a[0]) >= m then [a[0]] else [];
      assert (a + b)[0] == a[0] && (a + b)[1..] == a[1..] + b;
      assert AtLeast(a, score, m) == h + AtLeast(a[1..], score, m);
      assert AtLeast(a + b, score, m) == h + AtLeast(a[1..] + b, score, m);
      AtLeastAppend(a[1..], b, score, m);
      AppendAssoc(h, AtLeast(a[1..], score, m), AtLeast(b, score, m));
    }
  }

  /** For a score at or above the threshold, the filter keeps every element with
      that score, in the order they had. */
  lemma {:induction false} AtLeastKeepsTies<T>(s: seq<T>, score: T -> real, m: real, c: real)
    requires m <= c
    ensures WithScore(AtLeast(s, score, m), score, c) == WithScore(s, score, c)
  {
    if s != [] {
      var h := if score(s[0]) >= m then [s[0]] else [];
      assert AtLeast(s, score, m) == h + AtLeast(s[1..], score, m);
      AtLeastKeepsTies(s[1..], score, m, c);
      WithScoreAppend(h, AtLeast(s[1..], score, m), score, c);
    }
  }

  /** The elements of a prefix with a given score are a prefix of those of the
      whole. */
  lemma WithScorePrefix<T>(t: seq<T>, s: seq<T>, score: T -> real, c: real)
    requires t <= s
    ensures WithScore(t, score, c) <= WithScore(s, score, c)
  {
    assert s == t + s[|t|..];
    WithScoreAppend(t, s[|t|..], score, c);
  }

  /** Filtering does not repeat a key. */
  lemma {:induction false} AtLeastDistinct<T, K>(s: seq<T>, score: T -> real, m: real, key: T -> K)
    requires NoDup(Keys(s, key))
    ensures NoDup(Keys(AtLeast(s, score, m), key))
  {
    if s != [] {
      var ks := Keys(s, key);
      assert Keys(s[1..], key) == ks[1..];
      AtLeastDistinct(s[1..], score, m, key);
      var rest := AtLeast(s[1..], score, m);
      if score(s[0]) >= m {
        var rk := Keys(rest, key);
        forall j | 0 <= j < |rest| ensures rk[j] != ks[0] {
          var k :| 0 <= k < |s| - 1 && s[1..][k] == rest[j];
          assert ks[k + 1] == rk[j];
        }
        assert AtLeast(s, score, m) == [s[0]] + rest;
        KeysCons(s[0], rest, key);
        NoDupCons(ks[0], rk);
      }
    }
  }


  /** `s.reduce((sum, x) => sum + x, 0)` */
  function Sum(s: seq<real>): real {
    if s == [] then 0.0 else Sum(s[..|s| - 1]) + s[|s| - 1]
  }

  lemma {:induction false} SumBounds(s: seq<real>)
    requires forall i :: 0 <= i < |s| ==> 0.0 <= s[i] <= 1.0
    ensures 0.0 <= Sum(s) <= |s| as real
  {
    if s != [] {
      SumBounds(s[..|s| - 1]);
    }
  }
}
