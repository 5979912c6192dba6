/** `extractSearchTerms`: the words of a scenario that the keyword search looks
    for, lower-cased, stripped of punctuation, without short words and stop
    words, at most ten. */
module SearchTerms {
  import opened JsStrings
  import opened Lists

  const StopWords: set<string> := {
    "the", "a", "an", "and", "or", "but", "in", "on", "at", "to", "for",
    "of", "with", "by", "is", "was", "are", "were", "be", "been", "have",
    "has", "had", "do", "does", "did", "will", "would", "could", "should"
  }

  /** `s.replace(/[^\w\s]/g, ' ')` */
  function Sanitize(s: string): (r: string)
    ensures |r| == |s|
    ensures forall i :: 0 <= i < |s| ==> r[i] == (if IsWordChar(s[i]) || IsSpace(s[i]) then s[i] else ' ')
  {
    seq(|s|, i requires 0 <= i < |s| => if IsWordChar(s[i]) || IsSpace(s[i]) then s[i] else ' ')
  }

  /** The first position at or after i that holds white space, or |s|. */
  function SkipNonSpace(s: string, i: nat): (j: nat)
    requires i <= |s|
    ensures i <= j <= |s|
    ensures forall k :: i <= k < j ==> !IsSpace(s[k])
    ensures j < |s| ==> IsSpace(s[j])
    decreases |s| - i
  {
    if i == |s| || IsSpace(s[i]) then i else SkipNonSpace(s, i + 1)
  }

  /** The first position at or after i that does not hold white space, or |s|. */
  function SkipSpace(s: string, i: nat): (j: nat)
    requires i <= |s|
    ensures i <= j <= |s|
    ensures forall k :: i <= k < j ==> IsSpace(s[k])
    ensures j < |s| ==> !IsSpace(s[j])
    decreases |s| - i
  {
    if i == |s| || !IsSpace(s[i]) then i else SkipSpace(s, i + 1)
  }

  /** The pieces of s from position i on: up to the next white space, then the
      pieces after the whole run of white space that follows. */
  function SplitFrom(s: string, i: nat): seq<string>
    requires i <= |s|
    decreases |s| - i
  {
    var j := SkipNonSpace(s, i);
    if j == |s| then [s[i..]]
    else
      var o := SkipSpace(s, j);
      assert j < o by {
        if o == j {
          assert IsSpace(s[j]);
        }
      }
      [s[i..j]] + SplitFrom(s, o)
  }

  /** `s.split(/\s+/)`: the pieces between maximal runs of white space, with an
      empty piece before a leading run and after a trailing one. */
  function SplitWs(s: string): seq<string> {
    SplitFrom(s, 0)
  }

  /** The characters of s that are not white space, in order. */
  function NonSpace(s: string): string {
    if s == [] then [] else (if IsSpace(s[0]) then [] else [s[0]]) + NonSpace(s[1..])
  }

  /** The strings of ws one after the other. */
  function Concat(ws: seq<string>): string {
    if ws == [] then [] else ws[0] + Concat(ws[1..])
  }

  /** s[i..j] is a maximal non-empty run of characters that are not white space. */
  predicate MaxRun(s: string, i: int, j: int) {
    0 <= i < j <= |s| && (forall k :: i <= k < j ==> !IsSpace(s[k])) &&
    (i == 0 || IsSpace(s[i - 1])) && (j == |s| || IsSpace(s[j]))
  }

  lemma {:induction false} NonSpaceAppend(a: string, b: string)
    ensures NonSpace(a + b) == NonSpace(a) + NonSpace(b)
  {
    if a == [] {
      assert a + b == b;
    } else {
      var h := if IsSpace(a[0]) then [] else [a[0]];
      assert (a + b)[0] == a[0] && (a + b)[1..] == a[1..] + b;
      NonSpaceAppend(a[1..], b);
      AppendAssoc(h, NonSpace(a[1..]), NonSpace(b));
    }
  }

  lemma {:induction false} NonSpaceOf(s: string)
    ensures (forall k :: 0 <= k < |s| ==> !IsSpace(s[k])) ==> NonSpace(s) == s
    ensures (forall k :: 0 <= k < |s| ==> IsSpace(s[k])) ==> NonSpace(s) == []
  {
    if s != [] {
      NonSpaceOf(s[1..]);
      assert forall k :: 0 <= k < |s| - 1 ==> s[1..][k] == s[k + 1];
    }
  }

  /** NonSpace keeps s[i..j] whole when it holds no white space, and drops it
      when it holds only white space. */
  lemma NonSpaceRange(s: string, i: nat, j: nat)
    requires i <= j <= |s|
    ensures (forall k :: i <= k < j ==> !IsSpace(s[k])) ==> NonSpace(s[i..j]) == s[i..j]
    ensures (forall k :: i <= k < j ==> IsSpace(s[k])) ==> NonSpace(s[i..j]) == []
  {
    assert forall k :: 0 <= k < j - i ==> s[i..j][k] == s[i + k];
    NonSpaceOf(s[i..j]);
  }

  /** The characters of s[i..] that are not white space, when s[i..j] has none
      and s[j..o] is all white space. */
  lemma NonSpaceSkip(s: string, i: nat, j: nat, o: nat)
    requires i <= j <= o <= |s|
    requires forall k :: i <= k < j ==> !IsSpace(s[k])
    requires forall k :: j <= k < o ==> IsSpace(s[k])
    ensures NonSpace(s[i..]) == s[i..j] + NonSpace(s[o..])
  {
    assert s[i..] == s[i..j] + (s[j..o] + s[o..]);
    NonSpaceAppend(s[i..j], s[j..o] + s[o..]);
    NonSpaceAppend(s[j..o], s[o..]);
    NonSpaceRange(s, i, j);
    NonSpaceRange(s, j, o);
  }

  /** The pieces from i on hold no white space. */
  lemma {:induction false} SplitFromNoSpace(s: string, i: nat)
    requires i <= |s|
    ensures forall w :: w in SplitFrom(s, i) ==> forall k :: 0 <= k < |w| ==> !IsSpace(w[k])
    decreases |s| - i
  {
    var j := SkipNonSpace(s, i);
    if j < |s| {
      var o := SkipSpace(s, j);
      assert SplitFrom(s, i) == [s[i..j]] + SplitFrom(s, o);
      SplitFromNoSpace(s, o);
    }
    assert forall k :: 0 <= k < j - i ==> s[i..j][k] == s[i + k];
  }

  /** The pieces from i on, one after the other, are the characters of s[i..]
      that are not white space. */
  lemma {:induction false} SplitFromConcat(s: string, i: nat)
    requires i <= |s|
    ensures Concat(SplitFrom(s, i)) == NonSpace(s[i..])
    decreases |s| - i
  {
    var j := SkipNonSpace(s, i);
    if j == |s| {
      NonSpaceSkip(s, i, j, j);
      assert Concat([s[i..]]) == s[i..] + Concat([]);
    } else {
      var o := SkipSpace(s, j);
      assert SplitFrom(s, i) == [s[i..j]] + SplitFrom(s, o);
      SplitFromConcat(s, o);
      NonSpaceSkip(s, i, j, o);
      assert Concat(SplitFrom(s, i)) == s[i..j] + Concat(SplitFrom(s, o));
    }
  }

  /** Every maximal run of non-white-space characters starting at or after i
      is a piece, when i starts s or follows white space. */
  lemma {:induction false} SplitFromRuns(s: string, i: nat)
    requires i <= |s| && (i == 0 || IsSpace(s[i - 1]))
    ensures forall a, b :: MaxRun(s, a, b) && i <= a ==> s[a..b] in SplitFrom(s, i)
    decreases |s| - i
  {
    var j := SkipNonSpace(s, i);
    forall a, b | MaxRun(s, a, b) && i <= a ensures s[a..b] in SplitFrom(s, i) {
      if a == i {
        if b < j {
          assert false;
        } else if j < b {
          assert false;
        }
        assert s[a..b] == SplitFrom(s, i)[0];
      } else {
        if a - 1 < j {
          assert false;
        }
        var o := SkipSpace(s, j);
        assert !IsSpace(s[a]);
        assert SplitFrom(s, i) == [s[i..j]] + SplitFrom(s, o);
        SplitFromRuns(s, o);
      }
    }
  }

  /** Every non-empty piece from i on is a maximal run of non-white-space
      characters, when i starts s or follows white space. */
  lemma {:induction false} SplitFromPieces(s: string, i: nat)
    requires i <= |s| && (i == 0 || IsSpace(s[i - 1]))
    ensures forall w :: w in SplitFrom(s, i) && w != [] ==> exists a, b :: MaxRun(s, a, b) && s[a..b] == w
    decreases |s| - i
  {
    var j := SkipNonSpace(s, i);
    if j < |s| {
      var o := SkipSpace(s, j);
      assert SplitFrom(s, i) == [s[i..j]] + SplitFrom(s, o);
      SplitFromPieces(s, o);
    }
    forall w | w in SplitFrom(s, i) && w != [] ensures exists a, b :: MaxRun(s, a, b) && s[a..b] == w {
      if w == s[i..j] {
        assert MaxRun(s, i, j);
      }
    }
  }

  /** `s.split(/\s+/)`: the pieces hold no white space and, one after the other,
      give the characters of s that are not white space, in order; every
      maximal run of such characters is a piece, and every non-empty piece is
      such a run. */
  lemma SplitWsSpec(s: string)
    ensures forall w :: w in SplitWs(s) ==> forall k :: 0 <= k < |w| ==> !IsSpace(w[k])
    ensures Concat(SplitWs(s)) == NonSpace(s)
    ensures forall a, b :: MaxRun(s, a, b) ==> s[a..b] in SplitWs(s)
    ensures forall w :: w in SplitWs(s) && w != [] ==> exists a, b :: MaxRun(s, a, b) && s[a..b] == w
  {
    SplitFromNoSpace(s, 0);
    SplitFromConcat(s, 0);
    assert s[0..] == s;
    SplitFromRuns(s, 0);
    SplitFromPieces(s, 0);
  }

  /** A character `Sanitize(ToLower(..))` can produce. */
  predicate LowerWordOrSpace(c: char) {
    (IsWordChar(c) || IsSpace(c)) && !IsUpper(c)
  }

  lemma SanitizedChars(input: string)
    ensures forall i :: 0 <= i < |Sanitize(ToLower(input))| ==> LowerWordOrSpace(Sanitize(ToLower(input))[i])
  {
    var l := ToLower(input);
    var s := Sanitize(l);
    forall i | 0 <= i < |s| ensures LowerWordOrSpace(s[i]) {
      assert !IsUpper(l[i]);
    }
  }

  /** The pieces of a sanitized, lower-cased string from i on are made of
      lower-case word characters. */
  lemma {:induction false} SplitFromChars(s: string, i: nat)
    requires i <= |s|
    requires forall k :: 0 <= k < |s| ==> LowerWordOrSpace(s[k])
    ensures forall w :: w in SplitFrom(s, i) ==> forall k :: 0 <= k < |w| ==> IsWordChar(w[k]) && !IsUpper(w[k])
    decreases |s| - i
  {
    var j := SkipNonSpace(s, i);
    if j < |s| {
      var o := SkipSpace(s, j);
      assert SplitFrom(s, i) == [s[i..j]] + SplitFrom(s, o);
      SplitFromChars(s, o);
    }
    assert forall k :: 0 <= k < j - i ==> s[i..j][k] == s[i + k];
  }

  lemma SplitWsChars(s: string)
    requires forall i :: 0 <= i < |s| ==> LowerWordOrSpace(s[i])
    ensures forall w :: w in SplitWs(s) ==> forall k :: 0 <= k < |w| ==> IsWordChar(w[k]) && !IsUpper(w[k])
  {
    SplitFromChars(s, 0);
  }

  /** `words.filter(w => w.length > 2 && !stopWords.has(w))` */
  function KeepTerms(words: seq<string>): seq<string> {
    if words == [] then []
    else (if |words[0]| > 2 && words[0] !in StopWords then [words[0]] else []) + KeepTerms(words[1..])
  }

  /** Filtering keeps the order: the words of a + b that are kept are those of
      a, then those of b. */
  lemma {:induction false} KeepTermsAppend(a: seq<string>, b: seq<string>)
    ensures KeepTerms(a + b) == KeepTerms(a) + KeepTerms(b)
  {
    if a == [] {
      assert a + b == b;
    } else {
      var h := if |a[0]| > 2 && a[0] !in StopWords then [a[0]] else [];
      assert (a + b)[0] == a[0] && (a + b)[1..] == a[1..] + b;
      assert KeepTerms(a + b) == h + KeepTerms(a[1..] + b);
      assert KeepTerms(a) == h + KeepTerms(a[1..]);
      KeepTermsAppend(a[1..], b);
      AppendAssoc(h, KeepTerms(a[1..]), KeepTerms(b));
    }
  }

  lemma KeepTermsSplit(words: seq<string>)
    ensures forall i :: 0 <= i <= |words| ==> KeepTerms(words) == KeepTerms(words[..i]) + KeepTerms(words[i..])
  {
    forall i | 0 <= i <= |words| ensures KeepTerms(words) == KeepTerms(words[..i]) + KeepTerms(words[i..]) {
      assert words[..i] + words[i..] == words;
      KeepTermsAppend(words[..i], words[i..]);
    }
  }

  /** The kept words are exactly the words longer than two characters that are
      not stop words, in their order in the input. */
  lemma {:induction false} KeepTermsSpec(words: seq<string>)
    ensures forall t :: t in KeepTerms(words) <==> t in words && |t| > 2 && t !in StopWords
    ensures forall i :: 0 <= i <= |words| ==> KeepTerms(words) == KeepTerms(words[..i]) + KeepTerms(words[i..])
  {
    if words != [] {
      KeepTermsSpec(words[1..]);
      assert words == [words[0]] + words[1..];
    }
    KeepTermsSplit(words);
  }

  /** `extractSearchTerms` */
  function ExtractSearchTerms(input: string): seq<string> {
    Slice(KeepTerms(SplitWs(Sanitize(ToLower(input)))), 10)
  }

  /** The terms are the first ten of the kept words of the lower-cased,
      sanitised input, in order (all of them when there are at most ten). Each
      is longer than two characters, not a stop word, and made of lower-case
      letters, digits and underscores. */
  lemma SearchTermsSpec(input: string)
    ensures var kept := KeepTerms(SplitWs(Sanitize(ToLower(input))));
            ExtractSearchTerms(input) <= kept &&
            |ExtractSearchTerms(input)| == (if |kept| < 10 then |kept| else 10)
    ensures var words := SplitWs(Sanitize(ToLower(input)));
            |KeepTerms(words)| <= 10 ==>
              forall w :: w in words && |w| > 2 && w !in StopWords ==> w in ExtractSearchTerms(input)
    ensures forall t :: t in ExtractSearchTerms(input) ==>
              t in SplitWs(Sanitize(ToLower(input))) &&
              |t| > 2 && t !in StopWords && forall k :: 0 <= k < |t| ==> IsWordChar(t[k]) && !IsUpper(t[k])
  {
    var s := Sanitize(ToLower(input));
    var words := SplitWs(s);
    var kept := KeepTerms(words);
    assert ExtractSearchTerms(input) == Slice(kept, 10);
    SanitizedChars(input);
    SplitWsChars(s);
    KeepTermsSpec(words);
    forall t | t in Slice(kept, 10)
      ensures t in words && |t| > 2 && t !in StopWords && forall k :: 0 <= k < |t| ==> IsWordChar(t[k]) && !IsUpper(t[k])
    {
      assert t in kept;
    }
  }
}
