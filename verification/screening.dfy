/**
 * The keyword scorer: which of a job's keywords occur in the resume text as
 * whole words (case-insensitively), and the percentage of the keyword list
 * they make up, rounded to two decimals.
 *
 * Scores are integer hundredths of a percent: 6667 stands for 66.67 and
 * `Full` (10000) for 100.
 */
module Screening {
  import opened Chars

  /** One element of a job's keyword array: a string, or any other JavaScript value. */
  datatype Entry = Str(s: string) | NonString

  /**
   * The `keywords` argument. A call that omits it gets the default `[]`,
   * which is `Array([])`.
   */
  datatype KeywordsArg = Array(entries: seq<Entry>) | NotArray

  /** What the scorer returns: `{ score, keywordsMatched }`. */
  datatype ScreeningResult = ScreeningResult(score: nat, keywordsMatched: seq<string>)

  /** 100.00 percent, in hundredths. */
  const Full: nat := 10000

  // ---------------------------------------------------------------------
  // The match predicate: `new RegExp('\\b' + k + '\\b', 'i').test(t)`
  // ---------------------------------------------------------------------

  /** Position `p` of `t` holds a word character (false outside the string). */
  predicate WordAt(t: string, p: int) {
    0 <= p < |t| && IsWordChar(t[p])
  }

  /** `\b` holds at position `p`: exactly one of the characters either side of it is a word character. */
  predicate Boundary(t: string, p: int) {
    WordAt(t, p - 1) != WordAt(t, p)
  }

  /** The pattern `\bk\b` (flag `i`) matches `t` starting at index `i`. */
  predicate MatchesAt(t: string, k: string, i: int)
    requires 0 <= i <= |t| - |k|
  {
    SameIgnoringCase(t[i..i + |k|], k) && Boundary(t, i) && Boundary(t, i + |k|)
  }

  /**
   * `regex.test(t)` for the regex built from keyword `k`, read literally
   * (a keyword without regular-expression metacharacters). The regex has no
   * `g` flag, so the test depends on `t` and `k` alone.
   */
  predicate RegexTest(t: string, k: string) {
    exists i :: 0 <= i <= |t| - |k| && MatchesAt(t, k, i)
  }

  /** `!keyword || typeof keyword !== 'string'` is false: a non-empty string. */
  predicate Eligible(e: Entry) {
    e.Str? && e.s != []
  }

  /**
   * Reference definition of `keywordsMatched`: the eligible entries that the
   * regex finds in `t`, as written, in list order, duplicates kept.
   */
  function Matched(t: string, es: seq<Entry>): seq<string>
    decreases |es|
  {
    if es == [] then []
    else
      var e := es[|es| - 1];
      Matched(t, es[..|es| - 1]) + if Eligible(e) && RegexTest(t, e.s) then [e.s] else []
  }

  // ---------------------------------------------------------------------
  // The score formula
  // ---------------------------------------------------------------------

  function Min(a: nat, b: nat): nat {
    if a <= b then a else b
  }

  /**
   * `Number(((m / n) * 100).toFixed(2))` in exact arithmetic: the hundredth
   * closest to `m * 100 / n` percent, the larger one on a tie.
   */
  function RoundedPercent(m: nat, n: nat): (r: nat)
    requires 0 < n
    ensures 20000 * m - n < 2 * n * r <= 20000 * m + n
  {
    var x, d := 20000 * m + n, 2 * n;
    var q := x / d;
    assert d * q <= x < d * q + d;
    q
  }

  /** `Math.min(100, …)` around the rounded percentage. */
  function Score(m: nat, n: nat): (r: nat)
    requires 0 < n
    ensures r <= Full
  {
    Min(Full, RoundedPercent(m, n))
  }

  /** Reference definition of the whole scorer. */
  function Expected(t: string, kw: KeywordsArg): ScreeningResult {
    if kw.NotArray? || |kw.entries| == 0 then ScreeningResult(0, [])
    else
      var ms := Matched(t, kw.entries);
      ScreeningResult(Score(|ms|, |kw.entries|), ms)
  }

  /**
   * `screeningLogic(resumeText, keywords)`: the guard, then the `forEach`
   * loop that pushes each matching keyword onto `keywordsMatched`, then the
   * score over the full length of the keyword array.
   */
  method Screen(t: string, kw: KeywordsArg) returns (res: ScreeningResult)
    ensures kw.NotArray? || kw.entries == [] ==> res == ScreeningResult(0, [])
    ensures res == Expected(t, kw)
  {
    if kw.NotArray? || |kw.entries| == 0 {
      return ScreeningResult(0, []);
    }
    var entries := kw.entries;
    var matched: seq<string> := [];
    for i := 0 to |entries|
      invariant matched == Matched(t, entries[..i])
    {
      var e := entries[i];
      assert entries[..i + 1] == entries[..i] + [e];
      MatchedSnoc(t, entries[..i], e);
      if Eligible(e) && RegexTest(t, e.s) {
        matched := matched + [e.s];
      }
    }
    assert entries[..|entries|] == entries;
    res := ScreeningResult(Score(|matched|, |entries|), matched);
  }

  // ---------------------------------------------------------------------
  // Properties of keywordsMatched
  // ---------------------------------------------------------------------

  /** `sub` can be obtained from the string entries of `es` by deleting some of them. */
  predicate IsSubsequence(sub: seq<string>, es: seq<Entry>)
    decreases |es|
  {
    if sub == [] then true
    else if es == [] then false
    else
      (es[|es| - 1] == Str(sub[|sub| - 1]) && IsSubsequence(sub[..|sub| - 1], es[..|es| - 1]))
      || IsSubsequence(sub, es[..|es| - 1])
  }

  /** `keywordsMatched` is a subsequence of the keyword list: same order, same casing. */
  lemma {:induction false} MatchedIsSubsequence(t: string, es: seq<Entry>)
    ensures IsSubsequence(Matched(t, es), es)
    decreases |es|
  {
    if es != [] {
      var init, e := es[..|es| - 1], es[|es| - 1];
      MatchedIsSubsequence(t, init);
      var m := Matched(t, es);
      if Eligible(e) && RegexTest(t, e.s) {
        assert m[..|m| - 1] == Matched(t, init);
      } else {
        assert m == Matched(t, init);
      }
    }
  }

  /**
   * How often a string occurs in `keywordsMatched`: as often as it occurs in
   * the keyword list when it is non-empty and matches, otherwise never. So
   * empty strings and non-strings never appear, and a matching keyword that
   * is listed twice appears twice.
   */
  lemma {:induction false} MatchedMultiplicity(t: string, es: seq<Entry>, k: string)
    ensures multiset(Matched(t, es))[k] == if k != [] && RegexTest(t, k) then multiset(es)[Str(k)] else 0
    decreases |es|
  {
    if es != [] {
      var init, e := es[..|es| - 1], es[|es| - 1];
      assert multiset(es) == multiset(init) + multiset{e} by {
        assert es == init + [e];
      }
      MatchedMultiplicity(t, init, k);
    }
  }

  /** A string is in `keywordsMatched` exactly when it is a non-empty listed keyword that matches. */
  lemma MatchedMembership(t: string, es: seq<Entry>, k: string)
    ensures k in Matched(t, es) <==> k != [] && Str(k) in es && RegexTest(t, k)
  {
    MatchedMultiplicity(t, es, k);
  }

  /** Appending one entry appends at most that keyword. */
  lemma MatchedSnoc(t: string, es: seq<Entry>, e: Entry)
    ensures Matched(t, es + [e]) == Matched(t, es) + if Eligible(e) && RegexTest(t, e.s) then [e.s] else []
  {
    assert (es + [e])[..|es|] == es;
  }

  /** Matching distributes over concatenation of keyword lists. */
  lemma {:induction false} MatchedAppend(t: string, a: seq<Entry>, b: seq<Entry>)
    ensures Matched(t, a + b) == Matched(t, a) + Matched(t, b)
    decreases |b|
  {
    if b == [] {
      assert a + b == a;
    } else {
      var init, e := b[..|b| - 1], b[|b| - 1];
      assert a + b == (a + init) + [e];
      assert b == init + [e];
      MatchedSnoc(t, a + init, e);
      MatchedSnoc(t, init, e);
      MatchedAppend(t, a, init);
    }
  }

  /** There are never more matches than list entries. */
  lemma {:induction false} MatchedLength(t: string, es: seq<Entry>)
    ensures |Matched(t, es)| <= |es|
    decreases |es|
  {
    if es != [] {
      MatchedLength(t, es[..|es| - 1]);
    }
  }

  /** When every entry is a non-empty string that matches, every entry is reported, in order. */
  lemma {:induction false} AllMatch(t: string, es: seq<Entry>)
    requires forall i :: 0 <= i < |es| ==> Eligible(es[i]) && RegexTest(t, es[i].s)
    ensures |Matched(t, es)| == |es|
    ensures forall i :: 0 <= i < |es| ==> es[i] == Str(Matched(t, es)[i])
    decreases |es|
  {
    if es != [] {
      var init, e := es[..|es| - 1], es[|es| - 1];
      AllMatch(t, init);
      var m, mi := Matched(t, es), Matched(t, init);
      assert m == mi + [e.s];
      forall i | 0 <= i < |es|
        ensures es[i] == Str(m[i])
      {
        if i < |init| {
          assert es[i] == init[i] && m[i] == mi[i];
        }
      }
    }
  }

  /** When every entry is a non-empty string that matches, the score is 100. */
  lemma AllMatchFull(t: string, es: seq<Entry>)
    requires forall i :: 0 <= i < |es| ==> Eligible(es[i]) && RegexTest(t, es[i].s)
    ensures es != [] ==> Expected(t, Array(es)).score == Full
  {
    if es != [] {
      AllMatch(t, es);
      ExpectedOfNonEmpty(t, es);
      ScoreExtremes(|es|);
    }
  }

  /** When no entry is a matching non-empty string, nothing is reported. */
  lemma {:induction false} NoneMatch(t: string, es: seq<Entry>)
    requires forall i :: 0 <= i < |es| ==> !(Eligible(es[i]) && RegexTest(t, es[i].s))
    ensures Matched(t, es) == []
    decreases |es|
  {
    if es != [] {
      NoneMatch(t, es[..|es| - 1]);
    }
  }

  /** When no entry is a matching non-empty string, the result is a score of 0 and no matches. */
  lemma NoneMatchZero(t: string, es: seq<Entry>)
    requires forall i :: 0 <= i < |es| ==> !(Eligible(es[i]) && RegexTest(t, es[i].s))
    ensures Expected(t, Array(es)) == ScreeningResult(0, [])
  {
    if es != [] {
      NoneMatch(t, es);
      ExpectedOfNonEmpty(t, es);
      ScoreExtremes(|es|);
    }
  }

  // ---------------------------------------------------------------------
  // The match predicate for keywords made of word characters
  // ---------------------------------------------------------------------

  /** `k` occurs at index `i` of `t`, ignoring case, with no word character immediately before or after it. */
  predicate OccursAsWordAt(t: string, k: string, i: int)
    requires 0 <= i <= |t| - |k|
  {
    SameIgnoringCase(t[i..i + |k|], k) && !WordAt(t, i - 1) && !WordAt(t, i + |k|)
  }

  /** Where a word keyword occurs, `\b` on either side means "no word character next to it". */
  lemma BoundaryOfWordOccurrence(t: string, k: string, i: int)
    requires k != [] && AllWordChars(k)
    requires 0 <= i <= |t| - |k| && SameIgnoringCase(t[i..i + |k|], k)
    ensures MatchesAt(t, k, i) <==> !WordAt(t, i - 1) && !WordAt(t, i + |k|)
  {
    var occ := t[i..i + |k|];
    assert LowerChar(occ[0]) == LowerChar(k[0]);
    assert LowerChar(occ[|k| - 1]) == LowerChar(k[|k| - 1]);
    assert IsWordChar(occ[0]) && IsWordChar(occ[|k| - 1]);
    assert WordAt(t, i) && WordAt(t, i + |k| - 1);
  }

  /**
   * A keyword made only of word characters matches exactly when it occurs in
   * the text, ignoring case, with no word character immediately before or after it.
   */
  lemma WordKeywordMatch(t: string, k: string)
    requires k != [] && AllWordChars(k)
    ensures RegexTest(t, k) <==> exists i :: 0 <= i <= |t| - |k| && OccursAsWordAt(t, k, i)
  {
    if RegexTest(t, k) {
      var i :| 0 <= i <= |t| - |k| && MatchesAt(t, k, i);
      BoundaryOfWordOccurrence(t, k, i);
      assert OccursAsWordAt(t, k, i);
    }
    if exists i :: 0 <= i <= |t| - |k| && OccursAsWordAt(t, k, i) {
      var i :| 0 <= i <= |t| - |k| && OccursAsWordAt(t, k, i);
      BoundaryOfWordOccurrence(t, k, i);
      assert MatchesAt(t, k, i);
    }
  }

  /** A keyword whose first letter (in either case) does not occur in the text does not match. */
  lemma FirstLetterAbsent(t: string, k: string)
    requires k != []
    requires forall c :: c in t ==> LowerChar(c) != LowerChar(k[0])
    ensures !RegexTest(t, k)
  {
    forall i | 0 <= i <= |t| - |k|
      ensures !MatchesAt(t, k, i)
    {
      assert t[i..i + |k|][0] == t[i];
    }
  }

  // ---------------------------------------------------------------------
  // Properties of the score
  // ---------------------------------------------------------------------

  /** Cancelling a positive factor from a strict inequality. */
  lemma MulLtCancel(c: int, a: int, b: int)
    requires 0 < c && c * a < c * b
    ensures a < b
  {
  }

  /** With no more matches than entries the rounded percentage never exceeds 100, so `Math.min` changes nothing. */
  lemma RoundedPercentAtMostFull(m: nat, n: nat)
    requires 0 < n && m <= n
    ensures RoundedPercent(m, n) <= Full
    ensures Score(m, n) == RoundedPercent(m, n)
  {
    var r := RoundedPercent(m, n);
    assert 2 * n * r <= 20001 * n < 2 * n * (Full + 1);
    MulLtCancel(2 * n, r, Full + 1);
  }

  /** All entries matching gives 100; none matching gives 0. */
  lemma ScoreExtremes(n: nat)
    requires 0 < n
    ensures Score(n, n) == Full
    ensures Score(0, n) == 0
  {
    var r := RoundedPercent(n, n);
    RoundedPercentAtMostFull(n, n);
    assert 2 * n * (Full - 1) < 19999 * n < 2 * n * r;
    MulLtCancel(2 * n, Full - 1, r);
    var z := RoundedPercent(0, n);
    assert 2 * n * z <= n < 2 * n * 1;
    MulLtCancel(2 * n, z, 1);
  }

  /** One more matching keyword on a list never lowers the score: m/n <= (m+1)/(n+1) when m <= n. */
  lemma ScoreMonotone(m: nat, n: nat)
    requires 0 < n && m <= n
    ensures Score(m, n) <= Score(m + 1, n + 1)
  {
    RoundedPercentAtMostFull(m, n);
    RoundedPercentAtMostFull(m + 1, n + 1);
    RoundedPercentStep(m, n, RoundedPercent(m, n), RoundedPercent(m + 1, n + 1));
  }

  /** The arithmetic of `ScoreMonotone`, on the rounding bounds of the two percentages. */
  lemma RoundedPercentStep(m: int, n: int, r: int, r': int)
    requires 0 < n && 0 <= r <= Full
    requires 2 * n * r <= 20000 * m + n
    requires 20000 * (m + 1) - (n + 1) < 2 * (n + 1) * r'
    ensures r <= r'
  {
    var c := 2 * (n + 1);
    assert c * r == 2 * n * r + 2 * r;
    assert c * (r' + 1) == c * r' + c;
    assert c * r <= 20000 * (m + 1) + n < c * (r' + 1);
    MulLtCancel(c, r, r' + 1);
  }

  /** The score is the rounded percentage of matched entries over ALL entries, and lies in 0..100. */
  lemma ExpectedScore(t: string, es: seq<Entry>)
    requires es != []
    ensures Expected(t, Array(es)).score == RoundedPercent(|Matched(t, es)|, |es|) <= Full
  {
    MatchedLength(t, es);
    RoundedPercentAtMostFull(|Matched(t, es)|, |es|);
  }

  /**
   * Appending a non-empty keyword that matches extends `keywordsMatched` by
   * that keyword and never lowers the score.
   */
  lemma AppendMatchingKeyword(t: string, es: seq<Entry>, e: Entry)
    requires Eligible(e) && RegexTest(t, e.s)
    ensures Expected(t, Array(es + [e])).keywordsMatched == Expected(t, Array(es)).keywordsMatched + [e.s]
    ensures Expected(t, Array(es)).score <= Expected(t, Array(es + [e])).score
  {
    var m, n := |Matched(t, es)|, |es|;
    MatchedSnoc(t, es, e);
    ExpectedOfNonEmpty(t, es + [e]);
    if es != [] {
      ExpectedOfNonEmpty(t, es);
      MatchedLength(t, es);
      ScoreMonotone(m, n);
      assert |Matched(t, es + [e])| == m + 1 && |es + [e]| == n + 1;
    }
  }

  /** For a non-empty keyword array the result is the score of its matches. */
  lemma ExpectedOfNonEmpty(t: string, es: seq<Entry>)
    requires es != []
    ensures Expected(t, Array(es)) == ScreeningResult(Score(|Matched(t, es)|, |es|), Matched(t, es))
  {
  }

  // ---------------------------------------------------------------------
  // Worked examples
  // ---------------------------------------------------------------------

  /**
   * The resume text of the first worked example,
   * "Experienced in Python and React development", written in pieces around
   * its two keywords.
   */
  const ExampleText := "Experienced in " + "Python" + " and " + "React" + " development"

  lemma Regroup(a: string, b: string, c: string, d: string, e: string)
    ensures a + b + c + d + e == (a + b) + (c + d + e)
  {
  }

  /**
   * A word-character keyword, written in any case and set off by non-word
   * characters (or the ends of the text), is found.
   */
  lemma MatchesBetween(before: string, occ: string, after: string, k: string)
    requires k != [] && AllWordChars(k) && SameIgnoringCase(occ, k)
    requires before == [] || !IsWordChar(before[|before| - 1])
    requires after == [] || !IsWordChar(after[0])
    ensures MatchesAt(before + occ + after, k, |before|)
    ensures RegexTest(before + occ + after, k)
  {
    var t, i := before + occ + after, |before|;
    assert t[i..i + |k|] == occ;
    BoundaryOfWordOccurrence(t, k, i);
    assert i > 0 ==> t[i - 1] == before[i - 1];
    assert i + |k| < |t| ==> t[i + |k|] == after[0];
  }

  /** In the first worked example "Python" is found. */
  lemma ExamplePython()
    ensures RegexTest(ExampleText, "Python")
  {
    var a, b, c, d, e := "Experienced in ", "Python", " and ", "React", " development";
    Regroup(a, b, c, d, e);
    MatchesBetween(a, b, c + d + e, "Python");
  }

  /** In the first worked example "React" is found. */
  lemma ExampleReact()
    ensures RegexTest(ExampleText, "React")
  {
    MatchesBetween("Experienced in " + "Python" + " and ", "React", " development", "React");
  }

  /** In the first worked example "Java" is not found: the text has no letter j. */
  lemma ExampleJava()
    ensures !RegexTest(ExampleText, "Java")
  {
    var a, b, c, d, e := "Experienced in ", "Python", " and ", "React", " development";
    forall ch | ch in ExampleText
      ensures LowerChar(ch) != 'j'
    {
      assert ch in a || ch in b || ch in c || ch in d || ch in e;
    }
    FirstLetterAbsent(ExampleText, "Java");
  }

  /** Of the three keywords, "Python" and "React" are reported, in list order. */
  lemma TwoOfThreeMatched()
    ensures Matched(ExampleText, [Str("Python"), Str("React"), Str("Java")]) == ["Python", "React"]
  {
    var t, py, re, ja := ExampleText, Str("Python"), Str("React"), Str("Java");
    PythonReactMatched();
    ExampleJava();
    MatchedSnoc(t, [py, re], ja);
    assert [py, re] + [ja] == [py, re, ja];
  }

  /** "Python" and then "React" are reported for the first two keywords. */
  lemma PythonReactMatched()
    ensures Matched(ExampleText, [Str("Python"), Str("React")]) == ["Python", "React"]
  {
    var t, py, re := ExampleText, Str("Python"), Str("React");
    assert Matched(t, [py]) == ["Python"] by {
      ExamplePython();
      MatchedSnoc(t, [], py);
      assert [] + [py] == [py];
    }
    ExampleReact();
    MatchedSnoc(t, [py], re);
    assert [py] + [re] == [py, re];
  }

  /** Two of three keywords found: `["Python", "React"]` and 66.67. */
  lemma TwoOfThree()
    ensures Expected(ExampleText, Array([Str("Python"), Str("React"), Str("Java")]))
         == ScreeningResult(6667, ["Python", "React"])
  {
    TwoOfThreeMatched();
    assert RoundedPercent(2, 3) == 6667;
  }

  /** The resume text "javascript expert", in two pieces. */
  const ExpertText := "javascript" + " expert"

  /** The resume text "Skilled in python", in two pieces. */
  const SkilledText := "Skilled in " + "python"

  /** Empty pieces at the ends of a concatenation change nothing. */
  lemma DropEmptyEnds(a: string)
    ensures "" + a == a && a + "" == a
  {
  }

  /** The match ignores case and reports the keyword as written: 100. */
  lemma CaseInsensitive()
    ensures Expected(ExpertText, Array([Str("JavaScript")])) == ScreeningResult(Full, ["JavaScript"])
  {
    var k := Str("JavaScript");
    JavaScriptInExpert();
    MatchedSnoc(ExpertText, [], k);
    assert [] + [k] == [k];
    ExpectedOfNonEmpty(ExpertText, [k]);
    ScoreExtremes(1);
  }

  /** "JavaScript" is found in "javascript expert", ignoring case. */
  lemma JavaScriptInExpert()
    ensures RegexTest(ExpertText, "JavaScript")
  {
    MatchesBetween("", "javascript", " expert", "JavaScript");
    DropEmptyEnds("javascript");
  }

  /** "Python" is found in "Skilled in python", ignoring case. */
  lemma PythonInSkilled()
    ensures RegexTest(SkilledText, "Python")
  {
    MatchesBetween("Skilled in ", "python", "", "Python");
    DropEmptyEnds(SkilledText);
  }

  /** An empty-string entry is skipped but still counts in the denominator: 50. */
  lemma BlankEntryCounts()
    ensures Expected(SkilledText, Array([Str(""), Str("Python")])) == ScreeningResult(5000, ["Python"])
  {
    var t := SkilledText;
    PythonInSkilled();
    MatchedSnoc(t, [], Str(""));
    MatchedSnoc(t, [Str("")], Str("Python"));
    assert RoundedPercent(1, 2) == 5000;
  }
}
