/**
 * The keyword suggester: the (at most) ten most frequent words of a text,
 * after lower-casing, splitting on runs of non-word characters and dropping
 * short words and stop words. Ties keep the order in which the words first
 * appear.
 */
module Keywords {
  import opened Chars

  /** The 31 common words that are never suggested. */
  const StopWords: set<string> := {
    "and", "or", "the", "with", "using", "of", "a", "to", "in", "for", "on",
    "is", "this", "that", "by", "as", "an", "are", "be", "from", "at", "it",
    "will", "we", "you", "have", "has", "our", "your", "can", "should"
  }

  /** How many keywords are suggested at most (`slice(0, 10)`). */
  const Limit: nat := 10

  /** No element occurs twice. */
  predicate Distinct(s: seq<string>) {
    forall i, j :: 0 <= i < j < |s| ==> s[i] != s[j]
  }

  // ---------------------------------------------------------------------
  // Tokenising: `text.toLowerCase().split(/\W+/)`
  // ---------------------------------------------------------------------

  /** The longest prefix of `s` made of word characters. */
  function WordPrefix(s: string): (w: string)
    ensures w <= s && AllWordChars(w)
    ensures |w| < |s| ==> !IsWordChar(s[|w|])
  {
    if s != [] && IsWordChar(s[0]) then [s[0]] + WordPrefix(s[1..]) else []
  }

  /** `s` without its leading run of non-word characters. */
  function SkipNonWord(s: string): (r: string)
    ensures |r| <= |s| && r == s[|s| - |r|..]
    ensures forall i :: 0 <= i < |s| - |r| ==> !IsWordChar(s[i])
    ensures s != [] && !IsWordChar(s[0]) ==> |r| < |s|
    ensures r != [] ==> IsWordChar(r[0])
  {
    if s != [] && !IsWordChar(s[0]) then SkipNonWord(s[1..]) else s
  }

  /**
   * `s.split(/\W+/)`: the pieces between maximal runs of non-word
   * characters. A leading or trailing run yields an empty first or last
   * piece, and the empty string splits into one empty piece.
   */
  function Split(s: string): seq<string>
    decreases |s|
  {
    var w := WordPrefix(s);
    if |w| == |s| then [w]
    else [w] + Split(SkipNonWord(s[|w|..]))
  }

  /** `t` occurs at index `i` of `s` as a maximal run of word characters. */
  predicate RunAt(s: string, t: string, i: int)
    requires 0 <= i <= |s| - |t|
  {
    && s[i..i + |t|] == t
    && AllWordChars(t)
    && (i == 0 || !IsWordChar(s[i - 1]))
    && (i + |t| == |s| || !IsWordChar(s[i + |t|]))
  }

  predicate IsMaximalRun(s: string, t: string) {
    exists i :: 0 <= i <= |s| - |t| && RunAt(s, t, i)
  }

  /** A run inside a suffix that follows a non-word character is a run of the whole string. */
  lemma RunInSuffix(s: string, o: int, t: string, j: int)
    requires 0 < o <= |s| && !IsWordChar(s[o - 1])
    requires 0 <= j <= |s| - o - |t| && RunAt(s[o..], t, j)
    ensures RunAt(s, t, o + j)
  {
    assert s[o..][j..j + |t|] == s[o + j..o + j + |t|];
    if j > 0 {
      assert s[o..][j - 1] == s[o + j - 1];
    }
    if j + |t| < |s| - o {
      assert s[o..][j + |t|] == s[o + j + |t|];
    }
  }

  /** Every piece of `split(/\W+/)` is a maximal run of word characters of the input. */
  lemma {:induction false} SplitPiecesAreRuns(s: string)
    ensures forall t :: t in Split(s) ==> IsMaximalRun(s, t)
    decreases |s|
  {
    var w := WordPrefix(s);
    assert s[0..|w|] == w;
    assert RunAt(s, w, 0);
    if |w| < |s| {
      var rest := s[|w|..];
      var r := SkipNonWord(rest);
      var o := |s| - |r|;
      assert r == s[o..];
      assert !IsWordChar(rest[|rest| - |r| - 1]);
      assert !IsWordChar(s[o - 1]);
      SplitPiecesAreRuns(r);
      RunsOfSuffix(s, o, Split(r));
    }
  }

  /** Runs of a suffix that follows a non-word character are runs of the whole string. */
  lemma RunsOfSuffix(s: string, o: int, ts: seq<string>)
    requires 0 < o <= |s| && !IsWordChar(s[o - 1])
    requires forall t :: t in ts ==> IsMaximalRun(s[o..], t)
    ensures forall t :: t in ts ==> IsMaximalRun(s, t)
  {
    forall t | t in ts
      ensures IsMaximalRun(s, t)
    {
      var j :| 0 <= j <= |s| - o - |t| && RunAt(s[o..], t, j);
      RunInSuffix(s, o, t, j);
    }
  }

  /** A maximal run of word characters starts at index `i`. */
  predicate IsRunStart(s: string, i: int)
    requires 0 <= i < |s|
  {
    IsWordChar(s[i]) && (i == 0 || !IsWordChar(s[i - 1]))
  }

  /**
   * Reference list of the maximal runs of word characters of `s` that start
   * at index `i` or later, one entry per start, in order of position.
   */
  function RunsFrom(s: string, i: nat): seq<string>
    requires i <= |s|
    decreases |s| - i
  {
    if i == |s| then []
    else (if IsRunStart(s, i) then [WordPrefix(s[i..])] else []) + RunsFrom(s, i + 1)
  }

  /** `ss` without its empty strings. */
  function NonEmpty(ss: seq<string>): (r: seq<string>)
    ensures forall t :: t in r <==> t in ss && t != []
  {
    if ss == [] then [] else (if ss[0] == [] then [] else [ss[0]]) + NonEmpty(ss[1..])
  }

  /** The longest word-character prefix is the only prefix of word characters followed by a non-word character or the end. */
  lemma {:induction false} WordPrefixUnique(x: string, p: string)
    requires p <= x && AllWordChars(p)
    requires |p| == |x| || !IsWordChar(x[|p|])
    ensures WordPrefix(x) == p
    decreases |p|
  {
    if p != [] {
      assert x[1..] == x[1..];
      assert p[1..] <= x[1..];
      WordPrefixUnique(x[1..], p[1..]);
      assert p == [p[0]] + p[1..];
    }
  }

  /** A maximal run occurrence of a non-empty `t` is exactly a run start whose run is `t`. */
  lemma RunAtIsRunStart(s: string, t: string, i: int)
    requires t != [] && 0 <= i <= |s| - |t|
    ensures RunAt(s, t, i) <==> IsRunStart(s, i) && WordPrefix(s[i..]) == t
  {
    var x := s[i..];
    if RunAt(s, t, i) {
      assert t <= x;
      if |t| < |x| {
        assert x[|t|] == s[i + |t|];
      }
      WordPrefixUnique(x, t);
    }
    if IsRunStart(s, i) && WordPrefix(x) == t {
      assert s[i..i + |t|] == t;
      if |t| < |x| {
        assert x[|t|] == s[i + |t|];
      }
    }
  }

  /** No run starts between `i` and `j` when all those characters are non-word characters. */
  lemma {:induction false} RunsSkipNonWord(s: string, i: nat, j: nat)
    requires i <= j <= |s|
    requires forall k :: i <= k < j ==> !IsWordChar(s[k])
    ensures RunsFrom(s, i) == RunsFrom(s, j)
    decreases j - i
  {
    if i < j {
      RunsSkipNonWord(s, i + 1, j);
    }
  }

  /** No run starts strictly inside a stretch of word characters from `i` to `j`. */
  lemma {:induction false} RunsSkipWord(s: string, i: nat, j: nat)
    requires i < j <= |s|
    requires forall k :: i <= k < j ==> IsWordChar(s[k])
    ensures RunsFrom(s, i + 1) == RunsFrom(s, j)
    decreases j - i
  {
    if i + 1 < j {
      assert !IsRunStart(s, i + 1);
      RunsSkipWord(s, i + 1, j);
    }
  }

  /** Skipping the non-word run that starts at index `e` of `s` stops at some later index `j`. */
  lemma SkipNonWordAt(s: string, e: nat) returns (j: nat)
    requires e < |s| && !IsWordChar(s[e])
    ensures e < j <= |s| && SkipNonWord(s[e..]) == s[j..]
    ensures forall k :: e <= k < j ==> !IsWordChar(s[k])
  {
    var y := s[e..];
    var r := SkipNonWord(y);
    assert y[0] == s[e];
    j := |s| - |r|;
    assert r == s[j..];
    forall k | e <= k < j
      ensures !IsWordChar(s[k])
    {
      assert s[k] == y[k - e];
    }
  }

  /** One step of `split`: the first piece, then the split of what follows the next non-word run, which ends at `j`. */
  lemma SplitStep(s: string, i: nat) returns (j: nat)
    requires i <= |s| && |WordPrefix(s[i..])| < |s| - i
    ensures i + |WordPrefix(s[i..])| < j <= |s|
    ensures forall k :: i + |WordPrefix(s[i..])| <= k < j ==> !IsWordChar(s[k])
    ensures Split(s[i..]) == [WordPrefix(s[i..])] + Split(s[j..])
  {
    var x := s[i..];
    var w := WordPrefix(x);
    var e := i + |w|;
    SuffixOfSuffix(s, i, |w|);
    j := SkipNonWordAt(s, e);
    SplitAfterPiece(x, s[e..]);
  }

  /** Dropping `n` more characters from the suffix of `s` at `i` gives the suffix at `i + n`. */
  lemma SuffixOfSuffix(s: string, i: nat, n: nat)
    requires i <= |s| && n <= |s| - i
    ensures s[i..][n..] == s[i + n..]
    ensures n < |s| - i ==> s[i..][n] == s[i + n]
  {
  }

  /** `split` emits the leading piece, then splits what follows the non-word run after it. */
  lemma SplitAfterPiece(x: string, y: string)
    requires |WordPrefix(x)| < |x| && y == x[|WordPrefix(x)|..]
    ensures Split(x) == [WordPrefix(x)] + Split(SkipNonWord(y))
  {
  }

  /** The runs from a run boundary: the run starting there, if any, then the runs after the next non-word stretch. */
  lemma RunsStep(s: string, i: nat, j: nat)
    requires i <= |s| && (i == 0 || !IsWordChar(s[i - 1]))
    requires i + |WordPrefix(s[i..])| < j <= |s|
    requires forall k :: i + |WordPrefix(s[i..])| <= k < j ==> !IsWordChar(s[k])
    ensures var w := WordPrefix(s[i..]);
      RunsFrom(s, i) == (if w == [] then [] else [w]) + RunsFrom(s, j)
  {
    var w := WordPrefix(s[i..]);
    if w == [] {
      assert s[i..][0] == s[i];
      RunsSkipNonWord(s, i, i + 1);
      RunsSkipNonWord(s, i + 1, j);
    } else {
      RunsStepWord(s, i, j, w);
    }
  }

  /** `RunsStep` when a run starts at `i`. */
  lemma RunsStepWord(s: string, i: nat, j: nat, w: string)
    requires i < |s| && (i == 0 || !IsWordChar(s[i - 1]))
    requires w == WordPrefix(s[i..]) && w != []
    requires i + |w| < j <= |s|
    requires forall k :: i + |w| <= k < j ==> !IsWordChar(s[k])
    ensures RunsFrom(s, i) == [w] + RunsFrom(s, j)
  {
    var e := i + |w|;
    RunsAtWordStart(s, i, w);
    RunsSkipNonWord(s, e, j);
  }

  /** At a run boundary followed by a word character, the runs are the run there, then those after it. */
  lemma RunsAtWordStart(s: string, i: nat, w: string)
    requires i < |s| && (i == 0 || !IsWordChar(s[i - 1]))
    requires w == WordPrefix(s[i..]) && w != []
    ensures i + |w| <= |s| && RunsFrom(s, i) == [w] + RunsFrom(s, i + |w|)
  {
    var e := i + |w|;
    assert s[i..][..|w|] == w;
    assert s[i] == w[0];
    assert IsRunStart(s, i);
    forall k | i <= k < e ensures IsWordChar(s[k]) {
      assert s[k] == w[k - i];
    }
    RunsSkipWord(s, i, e);
    assert RunsFrom(s, i) == [w] + RunsFrom(s, i + 1);
  }

  /**
   * Past a run boundary, the non-empty pieces of `split(/\W+/)` are the
   * maximal runs listed by start position.
   */
  lemma {:induction false} SplitIsRunsFrom(s: string, i: nat)
    requires i <= |s| && (i == 0 || !IsWordChar(s[i - 1]))
    ensures NonEmpty(Split(s[i..])) == RunsFrom(s, i)
    decreases |s| - i
  {
    var x := s[i..];
    var w := WordPrefix(x);
    if |w| == |x| {
      if w != [] {
        assert x[..|w|] == w;
        assert s[i] == w[0];
        assert IsRunStart(s, i);
        forall k | i <= k < |s| ensures IsWordChar(s[k]) {
          assert s[k] == w[k - i];
        }
        RunsSkipWord(s, i, |s|);
      }
    } else {
      var j := SplitStep(s, i);
      RunsStep(s, i, j);
      SplitIsRunsFrom(s, j);
      var rest := Split(s[j..]);
      assert ([w] + rest)[1..] == rest;
    }
  }

  /** How many maximal run occurrences of `t` start at index `i` or later. */
  function RunCount(s: string, t: string, i: nat): nat
    requires i <= |s|
    decreases |s| - i
  {
    if i == |s| then 0
    else (if i <= |s| - |t| && RunAt(s, t, i) then 1 else 0) + RunCount(s, t, i + 1)
  }

  /** Each non-empty `t` is listed as often as it occurs as a maximal run. */
  lemma RunsFromCount(s: string, t: string, i: nat)
    requires i <= |s| && t != []
    ensures multiset(RunsFrom(s, i))[t] == RunCount(s, t, i)
  {
    CountAgreesFrom(s, t, i);
  }

  /** From `i` on, `t` is listed as often as it occurs as a maximal run. */
  predicate CountAgrees(s: string, t: string, i: nat)
    requires i <= |s|
  {
    multiset(RunsFrom(s, i))[t] == RunCount(s, t, i)
  }

  lemma {:induction false} CountAgreesFrom(s: string, t: string, i: nat)
    requires i <= |s| && t != []
    ensures CountAgrees(s, t, i)
    decreases |s| - i
  {
    if i < |s| {
      CountAgreesFrom(s, t, i + 1);
      RunsFromStep(s, t, i);
    }
  }

  /** The run starting at `i`, if any, is `t` exactly when `t` is a maximal run at `i`. */
  lemma RunsFromStep(s: string, t: string, i: nat)
    requires i < |s| && t != []
    ensures multiset(RunsFrom(s, i))[t]
         == (if i <= |s| - |t| && RunAt(s, t, i) then 1 else 0) + multiset(RunsFrom(s, i + 1))[t]
  {
    var head := if IsRunStart(s, i) then [WordPrefix(s[i..])] else [];
    assert RunsFrom(s, i) == head + RunsFrom(s, i + 1);
    assert multiset(RunsFrom(s, i)) == multiset(head) + multiset(RunsFrom(s, i + 1));
    if i <= |s| - |t| {
      RunAtIsRunStart(s, t, i);
    } else if IsRunStart(s, i) {
      assert |WordPrefix(s[i..])| <= |s| - i;
    }
  }

  /**
   * `split(/\W+/)` loses no word and invents none: each non-empty `t` is a
   * piece exactly as often as it occurs in `s` as a maximal run of word
   * characters, and without the empty pieces the pieces are those runs in
   * order of position.
   */
  lemma SplitCountsRuns(s: string, t: string)
    requires t != []
    ensures NonEmpty(Split(s)) == RunsFrom(s, 0)
    ensures multiset(Split(s))[t] == RunCount(s, t, 0)
  {
    assert s[0..] == s;
    SplitIsRunsFrom(s, 0);
    RunsFromCount(s, t, 0);
    NonEmptyCount(Split(s), t);
  }

  /** Dropping empty strings keeps the count of every non-empty one. */
  lemma {:induction false} NonEmptyCount(ss: seq<string>, t: string)
    requires t != []
    ensures multiset(NonEmpty(ss))[t] == multiset(ss)[t]
    decreases |ss|
  {
    if ss != [] {
      NonEmptyCount(ss[1..], t);
      assert ss == [ss[0]] + ss[1..];
    }
  }

  // ---------------------------------------------------------------------
  // Filtering: `.filter(word => word.length > 2 && !COMMON_WORDS.has(word))`
  // ---------------------------------------------------------------------

  /** A token that is kept: longer than two characters and not a stop word. */
  predicate Keep(w: string) {
    |w| > 2 && w !in StopWords
  }

  /** `filter(Keep)`: every kept token stays as often as it occurs, every other token goes. */
  function FilterKeep(ws: seq<string>): (r: seq<string>)
    ensures forall w :: w in r <==> w in ws && Keep(w)
    ensures forall w :: multiset(r)[w] == if Keep(w) then multiset(ws)[w] else 0
  {
    if ws == [] then []
    else
      assert ws == [ws[0]] + ws[1..];
      (if Keep(ws[0]) then [ws[0]] else []) + FilterKeep(ws[1..])
  }

  /** Filtering keeps the order: it distributes over concatenation. */
  lemma {:induction false} FilterKeepAppend(a: seq<string>, b: seq<string>)
    ensures FilterKeep(a + b) == FilterKeep(a) + FilterKeep(b)
    decreases |a|
  {
    if a == [] {
      assert a + b == b;
    } else {
      var head := if Keep(a[0]) then [a[0]] else [];
      assert (a + b)[0] == a[0];
      assert (a + b)[1..] == a[1..] + b;
      assert FilterKeep(a + b) == head + FilterKeep(a[1..] + b);
      FilterKeepAppend(a[1..], b);
      assert FilterKeep(a) == head + FilterKeep(a[1..]);
      Assoc(head, FilterKeep(a[1..]), FilterKeep(b));
    }
  }

  /** The filtered token list `words`. */
  function Words(text: string): seq<string> {
    FilterKeep(Split(Lower(text)))
  }

  /** Empty pieces never pass the filter. */
  lemma {:induction false} FilterKeepNonEmpty(ss: seq<string>)
    ensures FilterKeep(NonEmpty(ss)) == FilterKeep(ss)
    decreases |ss|
  {
    if ss != [] {
      FilterKeepNonEmpty(ss[1..]);
      var head := if ss[0] == [] then [] else [ss[0]];
      FilterKeepAppend(head, NonEmpty(ss[1..]));
      assert FilterKeep([ss[0]]) == (if Keep(ss[0]) then [ss[0]] else []) by {
        assert [ss[0]][1..] == [];
      }
    }
  }

  /**
   * The token list is tied to the text: it is the kept maximal runs of word
   * characters of the lower-cased text in order of position, and each kept
   * token occurs in it exactly as often as it occurs there as a run.
   */
  lemma WordsAreKeptRuns(text: string, t: string)
    ensures Words(text) == FilterKeep(RunsFrom(Lower(text), 0))
    ensures multiset(Words(text))[t] == if Keep(t) then RunCount(Lower(text), t, 0) else 0
  {
    var s := Lower(text);
    FilterKeepNonEmpty(Split(s));
    assert s[0..] == s;
    SplitIsRunsFrom(s, 0);
    if t != [] {
      SplitCountsRuns(s, t);
    }
  }

  // ---------------------------------------------------------------------
  // The frequency dictionary
  // ---------------------------------------------------------------------

  /** Each element of `r` first occurs in `ws` before every occurrence of the elements after it. */
  predicate FirstOccurrenceOrder(r: seq<string>, ws: seq<string>) {
    forall i, j, q :: 0 <= i < j < |r| && 0 <= q < |ws| && ws[q] == r[j] ==> r[i] in ws[..q]
  }

  /** The distinct elements of `ws` in order of first occurrence. */
  function Dedup(ws: seq<string>): (r: seq<string>)
    ensures Distinct(r)
    ensures forall w :: w in r <==> w in ws
    ensures FirstOccurrenceOrder(r, ws)
    decreases |ws|
  {
    if ws == [] then []
    else
      var init, w := ws[..|ws| - 1], ws[|ws| - 1];
      assert ws == init + [w];
      var d := Dedup(init);
      var r := if w in d then d else d + [w];
      assert FirstOccurrenceOrder(r, ws) by {
        forall i, j, q | 0 <= i < j < |r| && 0 <= q < |ws| && ws[q] == r[j]
          ensures r[i] in ws[..q]
        {
          if q < |init| {
            assert ws[..q] == init[..q];
            assert init[q] == r[j];
          } else {
            assert ws[..q] == init;
          }
        }
      }
      r
  }

  /** Reference definition of `frequency`: each token mapped to its number of occurrences. */
  function Frequencies(ws: seq<string>): map<string, nat> {
    map w | w in ws :: multiset(ws)[w]
  }

  /** One more token adds one to its count and leaves the other counts alone. */
  lemma FrequenciesSnoc(ws: seq<string>, w: string)
    ensures Frequencies(ws + [w]) == Frequencies(ws)[w := multiset(ws)[w] + 1]
  {
    assert multiset(ws + [w]) == multiset(ws) + multiset{w};
    var f, g := Frequencies(ws + [w]), Frequencies(ws)[w := multiset(ws)[w] + 1];
    assert f.Keys == g.Keys;
    forall v | v in f
      ensures f[v] == g[v]
    {
    }
  }

  /** A further token is a new key exactly when it has not occurred before. */
  lemma DedupSnoc(ws: seq<string>, w: string)
    ensures Dedup(ws + [w]) == if w in ws then Dedup(ws) else Dedup(ws) + [w]
  {
    var s := ws + [w];
    assert s[..|s| - 1] == ws && s[|s| - 1] == w;
  }

  /** The counts after one more token of `ws`, where `n` is its count so far. */
  lemma FrequenciesStep(ws: seq<string>, i: nat, frequency: map<string, nat>, n: nat)
    requires i < |ws| && frequency == Frequencies(ws[..i])
    requires n == if ws[i] in frequency then frequency[ws[i]] else 0
    ensures frequency[ws[i] := n + 1] == Frequencies(ws[..i + 1])
  {
    assert ws[..i + 1] == ws[..i] + [ws[i]];
    FrequenciesSnoc(ws[..i], ws[i]);
  }

  /** The keys after one more token of `ws`: it is added when it has no count yet. */
  lemma DedupStep(ws: seq<string>, i: nat, frequency: map<string, nat>, keys: seq<string>)
    requires i < |ws| && frequency == Frequencies(ws[..i]) && keys == Dedup(ws[..i])
    ensures (if ws[i] in frequency then keys else keys + [ws[i]]) == Dedup(ws[..i + 1])
  {
    assert ws[..i + 1] == ws[..i] + [ws[i]];
    DedupSnoc(ws[..i], ws[i]);
  }

  /**
   * The `forEach` loop that fills `frequency`. The dictionary's keys are
   * returned as `keys`, in the order `Object.entries` lists them: the order
   * in which each key was first added.
   */
  method CountFrequencies(ws: seq<string>) returns (frequency: map<string, nat>, keys: seq<string>)
    ensures frequency == Frequencies(ws)
    ensures keys == Dedup(ws)
  {
    frequency, keys := map[], [];
    for i := 0 to |ws|
      invariant frequency == Frequencies(ws[..i])
      invariant keys == Dedup(ws[..i])
    {
      var w := ws[i];
      var n := if w in frequency then frequency[w] else 0;
      FrequenciesStep(ws, i, frequency, n);
      DedupStep(ws, i, frequency, keys);
      if w !in frequency {
        keys := keys + [w];
      }
      frequency := frequency[w := n + 1];
    }
    assert ws[..|ws|] == ws;
  }

  // ---------------------------------------------------------------------
  // Stable sort by descending count: `.sort((a, b) => b[1] - a[1])`
  // ---------------------------------------------------------------------

  /** Every element of `s` has a count in `f`. */
  predicate Counted(s: seq<string>, f: map<string, nat>) {
    forall w :: w in s ==> w in f
  }

  /** Counts never increase along `s`. */
  predicate SortedDesc(s: seq<string>, f: map<string, nat>)
    requires Counted(s, f)
  {
    forall i, j :: 0 <= i < j < |s| ==> f[s[i]] >= f[s[j]]
  }

  /** The elements of `s` whose count is `c`, in order. */
  function WithCount(s: seq<string>, f: map<string, nat>, c: nat): seq<string>
    requires Counted(s, f)
  {
    if s == [] then []
    else (if f[s[0]] == c then [s[0]] else []) + WithCount(s[1..], f, c)
  }

  /**
   * Inserts `x`, which comes before every element of `s` in the input,
   * ahead of the first element whose count is not larger than its own.
   */
  function Insert(x: string, s: seq<string>, f: map<string, nat>): (r: seq<string>)
    requires x in f && Counted(s, f)
    ensures |r| == |s| + 1
    ensures forall w :: w in r <==> w == x || w in s
    ensures Counted(r, f)
    ensures SortedDesc(s, f) ==> SortedDesc(r, f)
    ensures Distinct(s) && x !in s ==> Distinct(r)
  {
    if s == [] || f[s[0]] <= f[x] then
      SplitHead(s, f);
      Prepend(x, s, f);
      [x] + s
    else
      var r' := Insert(x, s[1..], f);
      SplitHead(s, f);
      Prepend(s[0], r', f);
      [s[0]] + r'
  }

  /** A sorted or distinct list is its first element in front of a tail with the same property. */
  lemma SplitHead(s: seq<string>, f: map<string, nat>)
    requires Counted(s, f)
    ensures s != [] ==> s == [s[0]] + s[1..] && Counted(s[1..], f)
    ensures s != [] && SortedDesc(s, f) ==> SortedDesc(s[1..], f) && forall w :: w in s ==> f[w] <= f[s[0]]
    ensures s != [] && Distinct(s) ==> Distinct(s[1..]) && s[0] !in s[1..]
  {
    if s != [] && SortedDesc(s, f) {
      forall w | w in s
        ensures f[w] <= f[s[0]]
      {
        var j :| 0 <= j < |s| && s[j] == w;
        if j > 0 {
          assert f[s[0]] >= f[s[j]];
        }
      }
    }
  }

  /** Putting an element in front keeps the order when its count is the largest, and keeps distinctness when it is new. */
  lemma Prepend(y: string, r: seq<string>, f: map<string, nat>)
    requires y in f && Counted(r, f)
    ensures Counted([y] + r, f)
    ensures SortedDesc(r, f) && (forall w :: w in r ==> f[w] <= f[y]) ==> SortedDesc([y] + r, f)
    ensures Distinct(r) && y !in r ==> Distinct([y] + r)
  {
    var yr := [y] + r;
    if SortedDesc(r, f) && (forall w :: w in r ==> f[w] <= f[y]) {
      forall i, j | 0 <= i < j < |yr|
        ensures f[yr[i]] >= f[yr[j]]
      {
        assert yr[j] == r[j - 1];
        if i > 0 {
          assert yr[i] == r[i - 1];
        }
      }
    }
    if Distinct(r) && y !in r {
      forall i, j | 0 <= i < j < |yr|
        ensures yr[i] != yr[j]
      {
        assert yr[j] == r[j - 1];
        if i > 0 {
          assert yr[i] == r[i - 1];
        }
      }
    }
  }

  /** A stable sort of `s` by descending count (insertion sort). */
  function SortByCount(s: seq<string>, f: map<string, nat>): (r: seq<string>)
    requires Counted(s, f)
    ensures |r| == |s|
    ensures forall w :: w in r <==> w in s
    ensures Counted(r, f) && SortedDesc(r, f)
    ensures Distinct(s) ==> Distinct(r)
  {
    if s == [] then []
    else
      assert s == [s[0]] + s[1..];
      assert Distinct(s) ==> Distinct(s[1..]) && s[0] !in s[1..];
      Insert(s[0], SortByCount(s[1..], f), f)
  }

  /** Insertion adds exactly one copy of the element. */
  lemma {:induction false} InsertPermutes(x: string, s: seq<string>, f: map<string, nat>)
    requires x in f && Counted(s, f)
    ensures multiset(Insert(x, s, f)) == multiset(s) + multiset{x}
    decreases |s|
  {
    if s != [] && f[s[0]] > f[x] {
      InsertPermutes(x, s[1..], f);
      assert s == [s[0]] + s[1..];
    }
  }

  /** The sort is a permutation of its input. */
  lemma {:induction false} SortPermutes(s: seq<string>, f: map<string, nat>)
    requires Counted(s, f)
    ensures multiset(SortByCount(s, f)) == multiset(s)
    decreases |s|
  {
    if s != [] {
      var x, t := s[0], s[1..];
      var rest := SortByCount(t, f);
      var sorted := Insert(x, rest, f);
      assert SortByCount(s, f) == sorted;
      InsertPermutes(x, rest, f);
      SortPermutes(t, f);
      assert s == [x] + t;
    }
  }

  /** Listing under count `c` looks at the first element, then at the rest. */
  lemma WithCountCons(y: string, r: seq<string>, f: map<string, nat>, c: nat)
    requires y in f && Counted(r, f)
    ensures Counted([y] + r, f)
    ensures WithCount([y] + r, f, c) == (if f[y] == c then [y] else []) + WithCount(r, f, c)
  {
    assert ([y] + r)[1..] == r;
  }

  /** The inserted element lands before every element of its own count. */
  lemma InsertWithCount(x: string, s: seq<string>, f: map<string, nat>, c: nat)
    requires x in f && Counted(s, f)
    ensures WithCount(Insert(x, s, f), f, c) == (if f[x] == c then [x] else []) + WithCount(s, f, c)
  {
    InsertKeepsClassFrom(x, s, f, c);
  }

  /** Inserting `x` into `s` puts it at the head of its count class `c`, if its count is `c`. */
  predicate InsertKeepsClass(x: string, s: seq<string>, f: map<string, nat>, c: nat)
    requires x in f && Counted(s, f)
  {
    WithCount(Insert(x, s, f), f, c) == (if f[x] == c then [x] else []) + WithCount(s, f, c)
  }

  lemma {:induction false} InsertKeepsClassFrom(x: string, s: seq<string>, f: map<string, nat>, c: nat)
    requires x in f && Counted(s, f)
    ensures InsertKeepsClass(x, s, f, c)
    decreases |s|
  {
    if s == [] || f[s[0]] <= f[x] {
      WithCountCons(x, s, f, c);
    } else {
      InsertKeepsClassFrom(x, s[1..], f, c);
      InsertKeepsClassStep(x, s, f, c);
    }
  }

  /** The step past an element with a larger count than `x`. */
  lemma InsertKeepsClassStep(x: string, s: seq<string>, f: map<string, nat>, c: nat)
    requires x in f && Counted(s, f) && s != [] && f[s[0]] > f[x]
    requires InsertKeepsClass(x, s[1..], f, c)
    ensures InsertKeepsClass(x, s, f, c)
  {
    var y, rest := s[0], s[1..];
    var r' := Insert(x, rest, f);
    var hx, hy := if f[x] == c then [x] else [], if f[y] == c then [y] else [];
    var tail := WithCount(rest, f, c);
    InsertPast(x, s, f);
    WithCountCons(y, r', f, c);
    assert s == [y] + rest;
    WithCountCons(y, rest, f, c);
    SwapEmpty(hy, hx, tail);
  }

  /** `x` goes past a first element with a larger count. */
  lemma InsertPast(x: string, s: seq<string>, f: map<string, nat>)
    requires x in f && Counted(s, f) && s != [] && f[s[0]] > f[x]
    ensures Insert(x, s, f) == [s[0]] + Insert(x, s[1..], f)
  {
  }

  /** Two lists of which one is empty can be swapped in front of a third. */
  lemma SwapEmpty(a: seq<string>, b: seq<string>, t: seq<string>)
    requires a == [] || b == []
    ensures a + (b + t) == b + (a + t)
  {
    if a == [] {
      assert a + (b + t) == b + t == b + (a + t);
    } else {
      assert a + (b + t) == a + t == b + (a + t);
    }
  }

  /** The sort is stable: among elements of equal count, the input order is kept. */
  lemma {:induction false} SortIsStable(s: seq<string>, f: map<string, nat>, c: nat)
    requires Counted(s, f)
    ensures WithCount(SortByCount(s, f), f, c) == WithCount(s, f, c)
    decreases |s|
  {
    if s != [] {
      SortIsStable(s[1..], f, c);
      InsertWithCount(s[0], SortByCount(s[1..], f), f, c);
    }
  }

  /** An element listed under count `c` is an element of `s` with count `c`. */
  lemma {:induction false} WithCountMember(s: seq<string>, f: map<string, nat>, c: nat, x: string)
    requires Counted(s, f) && x in WithCount(s, f, c)
    ensures x in s && f[x] == c
    decreases |s|
  {
    if f[s[0]] != c || x != s[0] {
      assert x in WithCount(s[1..], f, c);
      WithCountMember(s[1..], f, c, x);
    }
  }

  /** Two such lists start with the same element: the first element of each has the largest count. */
  lemma SortedFirstAgree(a: seq<string>, b: seq<string>, f: map<string, nat>)
    requires Counted(a, f) && Counted(b, f)
    requires SortedDesc(a, f) && SortedDesc(b, f)
    requires forall c :: WithCount(a, f, c) == WithCount(b, f, c)
    requires a != [] && b != []
    ensures a[0] == b[0]
  {
    FirstCountNotLarger(a, b, f);
    FirstCountNotLarger(b, a, f);
    var c := f[a[0]];
    HeadUnderOwnCount(a, f);
    HeadUnderOwnCount(b, f);
    assert WithCount(a, f, c) == WithCount(b, f, c);
  }

  /** The first element of a non-empty list heads the list of elements with its count. */
  lemma HeadUnderOwnCount(s: seq<string>, f: map<string, nat>)
    requires Counted(s, f) && s != []
    ensures WithCount(s, f, f[s[0]]) != [] && WithCount(s, f, f[s[0]])[0] == s[0]
  {
  }

  /** The first count of `a` also occurs in `b`, so it is at most the first count of `b`. */
  lemma FirstCountNotLarger(a: seq<string>, b: seq<string>, f: map<string, nat>)
    requires Counted(a, f) && Counted(b, f) && SortedDesc(b, f)
    requires forall c :: WithCount(a, f, c) == WithCount(b, f, c)
    requires a != [] && b != []
    ensures f[a[0]] <= f[b[0]]
  {
    var c := f[a[0]];
    HeadUnderOwnCount(a, f);
    var w := WithCount(b, f, c);
    assert w == WithCount(a, f, c);
    var x := w[0];
    WithCountMember(b, f, c, x);
    SplitHead(b, f);
  }

  /** Two lists sorted by descending count that list the same elements under every count are equal. */
  lemma {:induction false} SortedByClassesUnique(a: seq<string>, b: seq<string>, f: map<string, nat>)
    requires Counted(a, f) && Counted(b, f)
    requires SortedDesc(a, f) && SortedDesc(b, f)
    requires forall c :: WithCount(a, f, c) == WithCount(b, f, c)
    ensures a == b
    decreases |a|
  {
    if a != [] && b != [] {
      SortedFirstAgree(a, b, f);
      var ta, tb := a[1..], b[1..];
      assert a == [a[0]] + ta && b == [b[0]] + tb;
      forall c
        ensures WithCount(ta, f, c) == WithCount(tb, f, c)
      {
        var head := if f[a[0]] == c then [a[0]] else [];
        WithCountCons(a[0], ta, f, c);
        WithCountCons(b[0], tb, f, c);
        assert WithCount(ta, f, c) == WithCount(a, f, c)[|head|..];
      }
      SortedByClassesUnique(ta, tb, f);
    } else {
      if a != [] {
        HeadUnderOwnCount(a, f);
      }
      if b != [] {
        HeadUnderOwnCount(b, f);
      }
    }
  }

  /**
   * Any list that orders the elements of `s` by descending count and keeps
   * the input order among equal counts is the list `SortByCount` gives:
   * every stable sort with this comparator agrees with the insertion sort.
   */
  lemma StableSortUnique(s: seq<string>, r: seq<string>, f: map<string, nat>)
    requires Counted(s, f) && Counted(r, f) && SortedDesc(r, f)
    requires forall c :: WithCount(r, f, c) == WithCount(s, f, c)
    ensures r == SortByCount(s, f)
  {
    var sorted := SortByCount(s, f);
    forall c
      ensures WithCount(r, f, c) == WithCount(sorted, f, c)
    {
      SortIsStable(s, f, c);
    }
    SortedByClassesUnique(r, sorted, f);
  }

  // ---------------------------------------------------------------------
  // `[...new Set(sorted)].slice(0, 10)` and the whole suggester
  // ---------------------------------------------------------------------

  /** `s.slice(0, k)`. */
  function Take(s: seq<string>, k: nat): (r: seq<string>)
    ensures r <= s && |r| == if |s| <= k then |s| else k
  {
    if |s| <= k then s else s[..k]
  }

  /** Removing duplicates from a list that has none changes nothing. */
  lemma {:induction false} DedupOfDistinct(s: seq<string>)
    requires Distinct(s)
    ensures Dedup(s) == s
    decreases |s|
  {
    if s != [] {
      var init := s[..|s| - 1];
      assert Distinct(init);
      DedupOfDistinct(init);
      assert s[|s| - 1] !in init;
      assert init + [s[|s| - 1]] == s;
    }
  }

  /** The kept tokens, each once, sorted by descending count with ties in first-occurrence order. */
  function Ranked(text: string): seq<string> {
    var ws := Words(text);
    SortByCount(Dedup(ws), Frequencies(ws))
  }

  /** Reference definition of the suggester. */
  function Suggest(text: string): seq<string> {
    Take(Dedup(Ranked(text)), Limit)
  }

  /** `extractKeywords(text)`. */
  method ExtractKeywords(text: string) returns (top: seq<string>)
    ensures top == Suggest(text)
  {
    var words := Words(text);
    var frequency, keys := CountFrequencies(words);
    var sorted := SortByCount(keys, frequency);
    top := Take(Dedup(sorted), Limit);
  }

  // ---------------------------------------------------------------------
  // Properties of the suggestions
  // ---------------------------------------------------------------------

  /** The suggestions are the first ten ranked tokens: removing duplicates changes nothing. */
  lemma SuggestIsPrefixOfRanked(text: string)
    ensures Distinct(Ranked(text))
    ensures Suggest(text) == Take(Ranked(text), Limit)
  {
    DedupOfDistinct(Ranked(text));
  }

  /** At most ten suggestions, none repeated. */
  lemma SuggestShape(text: string)
    ensures |Suggest(text)| <= Limit
    ensures Distinct(Suggest(text))
  {
    SuggestIsPrefixOfRanked(text);
  }

  /**
   * Every suggestion is longer than two characters, is not a stop word, and
   * is a maximal run of word characters of the lower-cased text.
   */
  lemma SuggestTokens(text: string)
    ensures forall t :: t in Suggest(text) ==> Keep(t) && IsMaximalRun(Lower(text), t)
  {
    SuggestIsPrefixOfRanked(text);
    SplitPiecesAreRuns(Lower(text));
  }

  /** Suggestions come in non-increasing order of their number of occurrences among the kept tokens. */
  lemma SuggestOrdered(text: string)
    ensures var r, ws := Suggest(text), Words(text);
      forall i, j :: 0 <= i < j < |r| ==> multiset(ws)[r[i]] >= multiset(ws)[r[j]]
  {
    SuggestIsPrefixOfRanked(text);
    var ws, r := Words(text), Suggest(text);
    forall i, j | 0 <= i < j < |r|
      ensures multiset(ws)[r[i]] >= multiset(ws)[r[j]]
    {
      assert r[i] == Ranked(text)[i] && r[j] == Ranked(text)[j];
      assert r[i] in ws && r[j] in ws;
    }
  }

  /**
   * Ties keep first-occurrence order: for every count, the suggestions with
   * that count are the first tokens with that count in order of first
   * occurrence.
   */
  lemma SuggestTies(text: string, c: nat)
    ensures var ws := Words(text);
      && Counted(Suggest(text), Frequencies(ws))
      && WithCount(Suggest(text), Frequencies(ws), c) <= WithCount(Dedup(ws), Frequencies(ws), c)
  {
    SuggestIsPrefixOfRanked(text);
    var ws := Words(text);
    SortIsStable(Dedup(ws), Frequencies(ws), c);
    WithCountOfPrefix(Suggest(text), Ranked(text), Frequencies(ws), c);
  }

  /** Cutting a list keeps a prefix of each count class. */
  lemma {:induction false} WithCountOfPrefix(p: seq<string>, s: seq<string>, f: map<string, nat>, c: nat)
    requires p <= s && Counted(s, f)
    ensures Counted(p, f) && WithCount(p, f, c) <= WithCount(s, f, c)
    decreases |p|
  {
    assert forall w :: w in p ==> w in s;
    if p != [] {
      assert p[1..] <= s[1..];
      WithCountOfPrefix(p[1..], s[1..], f, c);
    }
  }

  /** Cutting a list sorted by count keeps every element whose count beats an element cut off. */
  lemma TakeOfSorted(s: seq<string>, f: map<string, nat>, k: nat)
    requires Counted(s, f) && SortedDesc(s, f)
    ensures var r := Take(s, k);
      forall w, v :: w in s && w !in r && v in r ==> f[v] >= f[w]
  {
    var r := Take(s, k);
    forall w, v | w in s && w !in r && v in r
      ensures f[v] >= f[w]
    {
      var j :| 0 <= j < |s| && s[j] == w;
      var i :| 0 <= i < |r| && r[i] == v;
      assert s[i] == v;
      assert j >= |r|;
    }
  }

  /**
   * With at most ten distinct kept tokens, all of them are suggested;
   * otherwise ten are, and no omitted token occurs more often than a
   * suggested one.
   */
  lemma SuggestComplete(text: string)
    ensures var r, ws := Suggest(text), Words(text);
      if |Dedup(ws)| <= Limit then forall w :: w in r <==> w in ws
      else |r| == Limit && forall w, v :: w in ws && w !in r && v in r ==> multiset(ws)[v] >= multiset(ws)[w]
  {
    SuggestIsPrefixOfRanked(text);
    var ws := Words(text);
    TakeOfSorted(Ranked(text), Frequencies(ws), Limit);
  }
}
