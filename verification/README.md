# Resume screener scoring core, modelled in Dafny

This project models the resume-scoring core of a resume-screening web
application. Uploaded resumes are scored against the keyword list of a job
posting. The core has three pieces, all in `backend/utils/`:

- **Text extractor** (`extractTextFromResume`, `extraction.dfy`). It picks
  the PDF parser or the DOCX raw-text extractor by media type and rejects
  any other type. It wraps every failure in the message
  `"Failed to extract text from resume: " + cause`. It normalises the
  parsed text: each whitespace run becomes one space, and the ends are
  trimmed. `Extraction.NormalizeIsJoinedChunks` pins the result down
  completely: the whitespace-free runs of the parsed text, joined by single
  spaces.
- **Keyword scorer** (`screeningLogic`, `screening.dfy`). It walks the
  keyword list in order and skips empty and non-string entries. It tests
  each remaining keyword as a case-insensitive whole word and collects the
  matches as written. The score is `min(100, round2(matched / length * 100))`.
  The length counts the skipped entries too.
- **Keyword suggester** (`extractKeywords`, `keywords.dfy`). It lower-cases
  the text and splits it on runs of non-word characters. It drops short
  words and the 31 stop words, then counts each remaining word. It sorts the
  words by count, stable, so ties keep their first-occurrence order. It
  returns at most ten. The model sorts by insertion, and
  `Keywords.StableSortUnique` shows that every stable sort by descending
  count gives the same list.

`chars.dfy` holds the character classes the three share: `\w`, `\s` and
ASCII lower-casing. `pipeline.dfy` models how the upload handler chains
extraction and scoring.

Scores are integer hundredths of a percent. For example, 6667 stands for
66.67. The rounding is exact: round to the nearest hundredth, and on a tie
take the larger. This is what `toFixed(2)` does on exact values.

The two document parsers are foreign libraries. They are function-valued
parameters (`Extraction.Parser`): each either returns a text or fails
with a message. The model has no I/O, no clock and no randomness. Every
operation is a function of its inputs. In particular, the scorer's regex
has no `g` flag, so equal inputs always give equal results.

Two behaviours of the code are easy to miss, and the model keeps both:

- The scorer does not deduplicate: a matching keyword listed twice is
  reported twice (`Screening.MatchedMultiplicity`).
- A document with no visible character extracts successfully to `""`
  (`Extraction.NormalizeEmpty`).

## Model

| member | source | states |
|---|---|---|
| `Screening.MatchesAt` | backend/utils/screeningLogic.js:10-11 | Defines a match of `\bk\b` with flag `i` at one index: the slice equals the keyword ignoring ASCII case, and `\b` holds at both ends. |
| `Screening.RegexTest` | backend/utils/screeningLogic.js:10-11 | Defines `regex.test(text)`: a match at some index. `Screening.WordKeywordMatch` and `Screening.FirstLetterAbsent` state what it means. |
| `Screening.Eligible` | backend/utils/screeningLogic.js:9 | The guard `!keyword` or `typeof keyword !== 'string'` fails: the entry is a string and not empty. `Screening.MatchedMultiplicity` states that entries failing it are never reported. |
| `Screening.Matched` | backend/utils/screeningLogic.js:6-14 | Reference definition of `keywordsMatched`: the non-empty string entries the regex finds, as written, in list order. The lemmas below state its properties. |
| `Screening.Score` | backend/utils/screeningLogic.js:16-19 | The score never exceeds 100; below the cap it is the rounded percentage. |
| `Screening.Expected` | backend/utils/screeningLogic.js:1-19 | Reference definition of the whole scorer: the guard's zero result, otherwise the matches and the score over the full list length. |
| `Screening.Screen` | backend/utils/screeningLogic.js:1-22 | A non-array or empty keyword list gives exactly `{score: 0, keywordsMatched: []}`. Otherwise the loop's result equals the reference `Expected`: the filter of the keyword list and the rounded score over the full list length. |
| `Screening.MatchedIsSubsequence` | backend/utils/screeningLogic.js:6-14 | `keywordsMatched` is a subsequence of the keyword list, in the same order and with the original casing. |
| `Screening.MatchedMultiplicity` | backend/utils/screeningLogic.js:8-13 | Each string appears in `keywordsMatched` exactly as often as it is listed, if it is non-empty and matches. Otherwise it never appears, and neither do non-strings. There is no deduplication. |
| `Screening.MatchedMembership` | backend/utils/screeningLogic.js:9-13 | A string is in `keywordsMatched` if and only if it is a non-empty listed string keyword that the regex finds. |
| `Screening.MatchedSnoc` | backend/utils/screeningLogic.js:8-14 | One more list entry adds at most that keyword, at the end. |
| `Screening.MatchedAppend` | backend/utils/screeningLogic.js:8-14 | Scoring the concatenation of two lists gives the concatenation of their matches. |
| `Screening.MatchedLength` | backend/utils/screeningLogic.js:8-14 | There are never more matches than list entries. |
| `Screening.AllMatch` | backend/utils/screeningLogic.js:8-14 | If every entry is a non-empty string that matches, the matches are exactly the entries' strings, one per entry, in list order. |
| `Screening.AllMatchFull` | backend/utils/screeningLogic.js:8-19 | If every entry of a non-empty list is a non-empty string that matches, the score is 100. |
| `Screening.NoneMatch` | backend/utils/screeningLogic.js:8-14 | If no entry is a matching non-empty string, nothing is reported. |
| `Screening.NoneMatchZero` | backend/utils/screeningLogic.js:2-19 | If no entry is a matching non-empty string, the result is a score of 0 and no matches, whether or not the list is empty. |
| `Screening.BoundaryOfWordOccurrence` | backend/utils/screeningLogic.js:10 | At an occurrence of a word-character keyword, `\b` on both sides means no word character sits immediately before or after it. |
| `Screening.WordKeywordMatch` | backend/utils/screeningLogic.js:10-11 | A keyword made of word characters matches if and only if it occurs in the text ignoring case, with no word character immediately before or after it. |
| `Screening.FirstLetterAbsent` | backend/utils/screeningLogic.js:10-11 | A keyword whose first letter, in either case, is absent from the text does not match. |
| `Screening.RoundedPercent` | backend/utils/screeningLogic.js:18 | The result is the hundredth nearest to `m/n * 100`, taking the larger one on a tie: `20000m - n < 2n*r <= 20000m + n`. |
| `Screening.RoundedPercentAtMostFull` | backend/utils/screeningLogic.js:16-19 | With `m <= n` the rounded percentage is at most 100, so `Math.min(100, ...)` never changes it. |
| `Screening.ScoreExtremes` | backend/utils/screeningLogic.js:16-19 | All entries matching gives 100. None matching gives 0. |
| `Screening.ScoreMonotone` | backend/utils/screeningLogic.js:16-19 | If `m <= n`, the score for `m+1` of `n+1` is at least the score for `m` of `n`. |
| `Screening.ExpectedScore` | backend/utils/screeningLogic.js:16-19 | For a non-empty list, the score is the rounded percentage of matched entries over all entries, skipped ones included, and lies between 0 and 100. |
| `Screening.AppendMatchingKeyword` | backend/utils/screeningLogic.js:8-19 | Appending a non-empty keyword that matches adds exactly that keyword to `keywordsMatched` and never lowers the score. |
| `Screening.MatchesBetween` | backend/utils/screeningLogic.js:10-11 | A keyword of word characters, written in any case and with a non-word character or an end of the text on each side, is matched at that position. |
| `Screening.ExamplePython` | backend/utils/screeningLogic.js:10-11 | "Python" is found in "Experienced in Python and React development". |
| `Screening.ExampleReact` | backend/utils/screeningLogic.js:10-11 | "React" is found in the same text. |
| `Screening.ExampleJava` | backend/utils/screeningLogic.js:10-11 | "Java" is not found in the same text. |
| `Screening.PythonReactMatched` | backend/utils/screeningLogic.js:6-14 | `["Python", "React"]` against that text reports both, in list order. |
| `Screening.TwoOfThreeMatched` | backend/utils/screeningLogic.js:6-14 | `["Python", "React", "Java"]` against that text reports `["Python", "React"]`, in list order. |
| `Screening.TwoOfThree` | backend/utils/screeningLogic.js:1-22 | `["Python", "React", "Java"]` against that text gives `["Python", "React"]` and 66.67. |
| `Screening.CaseInsensitive` | backend/utils/screeningLogic.js:10-12 | `["JavaScript"]` against "javascript expert" gives `["JavaScript"]`, as written, and 100. |
| `Screening.JavaScriptInExpert` | backend/utils/screeningLogic.js:10-11 | "JavaScript" is found in "javascript expert": the `i` flag ignores case. |
| `Screening.PythonInSkilled` | backend/utils/screeningLogic.js:10-11 | "Python" is found in "Skilled in python": the `i` flag ignores case. |
| `Screening.BlankEntryCounts` | backend/utils/screeningLogic.js:9-19 | `["", "Python"]` against "Skilled in python" gives `["Python"]` and 50. The blank entry still counts in the denominator. |
| `Chars.IsWordChar` | backend/utils/extractKeywords.js:10 | Defines `\w` (and so `\W` and `\b`): ASCII letters, digits and `_`. |
| `Chars.IsSpace` | backend/utils/extractTextFromResume.js:19 | Defines `\s`, the same set `trim()` removes: the ECMAScript whitespace and line terminators. |
| `Chars.LowerChar` | backend/utils/extractKeywords.js:9 | Upper-case ASCII letters move to lower case, every other character is kept, and the word and whitespace classes are unchanged. |
| `Chars.Lower` | backend/utils/extractKeywords.js:9 | `toLowerCase()` keeps the length and lower-cases each character in place. |
| `Keywords.WordPrefix` | backend/utils/extractKeywords.js:10 | The result is the longest prefix of the input made of word characters. |
| `Keywords.SkipNonWord` | backend/utils/extractKeywords.js:10 | The result is a suffix of the input, reached by dropping only non-word characters, and, unless empty, it starts with a word character: the whole leading non-word run is dropped, the `+` of `\W+`. |
| `Keywords.RunInSuffix` | backend/utils/extractKeywords.js:10 | A maximal word run inside a suffix that follows a non-word character is a maximal word run of the whole string. |
| `Keywords.SplitPiecesAreRuns` | backend/utils/extractKeywords.js:10 | Every piece of `split(/\W+/)` is a maximal run of word characters of the input. |
| `Keywords.Split` | backend/utils/extractKeywords.js:10 | Defines `split(/\W+/)`: the piece before the first non-word run, then the split of what follows that run. `Keywords.SplitCountsRuns` states what it yields. |
| `Keywords.RunsFrom` | backend/utils/extractKeywords.js:10 | Reference list of the maximal word-character runs of a string, one per starting position, in order. |
| `Keywords.WordPrefixUnique` | backend/utils/extractKeywords.js:10 | A word-character prefix followed by a non-word character or the end is the longest word prefix. |
| `Keywords.RunAtIsRunStart` | backend/utils/extractKeywords.js:10 | A non-empty `t` is a maximal run at index `i` if and only if a run starts at `i` and its longest word prefix there is `t`. |
| `Keywords.SplitIsRunsFrom` | backend/utils/extractKeywords.js:10 | Without its empty pieces, `split(/\W+/)` of a suffix that starts at the beginning or after a non-word character is exactly the list of maximal runs from that position on. |
| `Keywords.RunsFromCount` | backend/utils/extractKeywords.js:10 | The run list holds each non-empty string exactly as often as it occurs as a maximal run. |
| `Keywords.NonEmptyCount` | backend/utils/extractKeywords.js:10 | Dropping empty strings keeps the count of every non-empty one. |
| `Keywords.SplitCountsRuns` | backend/utils/extractKeywords.js:10 | `split(/\W+/)` loses no word and invents none: without empty pieces it is the maximal runs in order, and each non-empty string is a piece exactly as often as it occurs as a maximal run. |
| `Keywords.Keep` | backend/utils/extractKeywords.js:2-11 | The filter's test: the token is longer than two characters and not one of the listed stop words. `Keywords.FilterKeep` and `Keywords.SuggestTokens` state what it lets through. |
| `Keywords.FilterKeep` | backend/utils/extractKeywords.js:11 | A token survives the filter if and only if it is in the input, is longer than two characters and is not a stop word. Each kept token keeps its number of occurrences, and every other token has none. |
| `Keywords.FilterKeepAppend` | backend/utils/extractKeywords.js:11 | The filter keeps order: it distributes over concatenation. |
| `Keywords.FilterKeepNonEmpty` | backend/utils/extractKeywords.js:11 | Empty pieces never pass the filter. |
| `Keywords.Words` | backend/utils/extractKeywords.js:8-11 | Defines `words`: lower-case, split on non-word runs, filter. `Keywords.WordsAreKeptRuns` states what it yields. |
| `Keywords.WordsAreKeptRuns` | backend/utils/extractKeywords.js:8-11 | `words` is the kept maximal runs of the lower-cased text in order of position, and each kept token occurs in it exactly as often as it occurs in that text as a run. |
| `Keywords.Dedup` | backend/utils/extractKeywords.js:13-16 | The result has no repeats and holds exactly the elements of the input. It is in first-occurrence order, the order of the dictionary's keys: each element first occurs in the input before any occurrence of a later one. |
| `Keywords.Frequencies` | backend/utils/extractKeywords.js:13-16 | Reference for the `frequency` object: each token that occurs maps to its number of occurrences. `Keywords.CountFrequencies` proves the loop builds it. |
| `Keywords.FrequenciesSnoc` | backend/utils/extractKeywords.js:15 | One more token adds one to its own count and leaves every other count unchanged. |
| `Keywords.FrequenciesStep` | backend/utils/extractKeywords.js:15 | Setting the token's count to its count so far (zero when absent) plus one turns the counts of a prefix into the counts of the prefix one token longer. |
| `Keywords.DedupStep` | backend/utils/extractKeywords.js:15 | A token becomes a new key exactly when it has no count yet, so the keys stay in first-occurrence order. |
| `Keywords.CountFrequencies` | backend/utils/extractKeywords.js:13-16 | The loop builds a dictionary that maps each token to its number of occurrences. Its keys come out in first-occurrence order. |
| `Keywords.Insert` | backend/utils/extractKeywords.js:18-19 | Insertion adds one element and keeps the membership, the descending order of counts and distinctness. |
| `Keywords.Prepend` | backend/utils/extractKeywords.js:18-19 | Putting an element with the largest count in front keeps descending order. Putting a new element in front keeps distinctness. |
| `Keywords.SortByCount` | backend/utils/extractKeywords.js:18-19 | The sort keeps the length and the elements and orders counts from largest to smallest. |
| `Keywords.InsertPermutes` | backend/utils/extractKeywords.js:18-19 | Insertion adds exactly one copy of the element: the multisets agree. |
| `Keywords.SortPermutes` | backend/utils/extractKeywords.js:18-19 | The sort is a permutation of its input. |
| `Keywords.InsertWithCount` | backend/utils/extractKeywords.js:18-19 | The inserted element lands before every element of its own count. |
| `Keywords.SortIsStable` | backend/utils/extractKeywords.js:18-19 | The sort is stable: for every count, the elements with that count keep their input order. |
| `Keywords.WithCountMember` | backend/utils/extractKeywords.js:18-19 | An element listed under a count is an element of the list with that count. |
| `Keywords.SortedFirstAgree` | backend/utils/extractKeywords.js:18-19 | Two lists sorted by descending count that list the same elements under every count start with the same element. |
| `Keywords.SortedByClassesUnique` | backend/utils/extractKeywords.js:18-19 | Two lists sorted by descending count that list the same elements, in the same order, under every count are equal. |
| `Keywords.StableSortUnique` | backend/utils/extractKeywords.js:18-19 | Every stable ordering of the entries by descending count equals the modelled insertion sort, so the choice of sorting algorithm does not affect the result. |
| `Keywords.Take` | backend/utils/extractKeywords.js:23 | `slice(0, k)` returns a prefix of length `min(k, length)`. |
| `Keywords.DedupOfDistinct` | backend/utils/extractKeywords.js:23 | `[...new Set(xs)]` is `xs` when `xs` has no repeats, so on the sorted keys it changes nothing. |
| `Keywords.Ranked` | backend/utils/extractKeywords.js:8-20 | Reference for `sorted`: the distinct tokens in first-occurrence order, sorted by descending count. `Keywords.SortPermutes`, `Keywords.SortIsStable` and `Keywords.StableSortUnique` state its properties. |
| `Keywords.Suggest` | backend/utils/extractKeywords.js:18-23 | Reference definition of the whole suggester: the first ten of the deduplicated ranking. The `Keywords.Suggest*` lemmas state its properties. |
| `Keywords.ExtractKeywords` | backend/utils/extractKeywords.js:1-24 | The dictionary loop, then the sort, the deduplication and the cut, gives the reference suggestion list. |
| `Keywords.SuggestIsPrefixOfRanked` | backend/utils/extractKeywords.js:18-23 | The ranked list has no repeats, and the suggestions are its first ten elements. |
| `Keywords.SuggestShape` | backend/utils/extractKeywords.js:14-23 | There are at most ten suggestions, and none is repeated. |
| `Keywords.SuggestTokens` | backend/utils/extractKeywords.js:2-11 | Every suggestion is longer than two characters, is not a stop word, and is a maximal run of word characters of the lower-cased text. |
| `Keywords.SuggestOrdered` | backend/utils/extractKeywords.js:18-20 | Suggestions come in non-increasing order of their number of occurrences among the kept tokens. |
| `Keywords.SuggestTies` | backend/utils/extractKeywords.js:13-20 | For every count, the suggestions with that count are the first tokens of that count in first-occurrence order. |
| `Keywords.WithCountOfPrefix` | backend/utils/extractKeywords.js:23 | Cutting a list keeps, for every count, a prefix of the elements with that count. |
| `Keywords.TakeOfSorted` | backend/utils/extractKeywords.js:18-23 | Cutting a list sorted by count leaves out no element whose count beats that of a kept element. |
| `Keywords.SuggestComplete` | backend/utils/extractKeywords.js:18-23 | With at most ten distinct kept tokens, all of them are suggested. Otherwise exactly ten are, and no omitted token occurs more often than a suggested one. |
| `Extraction.NonSpaceAppend` | backend/utils/extractTextFromResume.js:19 | The visible characters of a concatenation are the visible characters of each part, in order. |
| `Extraction.SingleSpacedSlice` | backend/utils/extractTextFromResume.js:19 | A string occurring at some position inside a single-spaced string is single-spaced. |
| `Extraction.Cons` | backend/utils/extractTextFromResume.js:19 | Putting a visible character, or a space before a visible character, in front of a single-spaced string keeps it single-spaced. |
| `Extraction.TrimStart` | backend/utils/extractTextFromResume.js:19 | The result is a suffix without leading whitespace and keeps every visible character. |
| `Extraction.TrimEnd` | backend/utils/extractTextFromResume.js:19 | The result is a prefix without trailing whitespace and keeps every visible character. |
| `Extraction.Trim` | backend/utils/extractTextFromResume.js:19 | The result of `trim()` has no whitespace at either end and keeps every visible character in order (that it is a contiguous slice is `Extraction.TrimIsInfix`). |
| `Extraction.TrimIsInfix` | backend/utils/extractTextFromResume.js:19 | `trim()` returns a contiguous slice of its input, starting where the leading whitespace ends, so only the ends are cut. |
| `Extraction.TrimKeepsSingleSpaced` | backend/utils/extractTextFromResume.js:19 | Trimming a single-spaced string leaves it single-spaced. |
| `Extraction.Collapse` | backend/utils/extractTextFromResume.js:19 | `replace(/\s+/g, ' ')` keeps every visible character, in order, is empty exactly when its input is, and otherwise starts with whitespace exactly when its input does. |
| `Extraction.CollapseIsJoinedChunks` | backend/utils/extractTextFromResume.js:19 | `replace(/\s+/g, ' ')` is exactly: one space if the input starts with whitespace, then the maximal non-whitespace runs joined by single spaces, then one space if whitespace follows the last run. |
| `Extraction.CollapseOfVisibleStart` | backend/utils/extractTextFromResume.js:19 | The same characterisation for an input that starts with a visible character. |
| `Extraction.CollapseLeading` | backend/utils/extractTextFromResume.js:19 | A leading whitespace run collapses to one space in front of the collapse of the rest. |
| `Extraction.TrimStartKeepsChunks` | backend/utils/extractTextFromResume.js:19 | Removing leading whitespace keeps the maximal non-whitespace runs and whether whitespace follows the last one. |
| `Extraction.CollapseIsSingleSpaced` | backend/utils/extractTextFromResume.js:19 | After `replace(/\s+/g, ' ')`, every whitespace character is a plain space and no two are adjacent. |
| `Extraction.Normalize` | backend/utils/extractTextFromResume.js:19 | The normalised text has no leading or trailing whitespace and no two adjacent whitespace characters, and its only whitespace is the ASCII space. It keeps every visible character of the parser's text, in order. |
| `Extraction.CollapseOfSingleSpaced` | backend/utils/extractTextFromResume.js:19 | Collapsing a single-spaced string changes nothing. |
| `Extraction.NormalizeOfNormalized` | backend/utils/extractTextFromResume.js:19 | Normalising an already normalised string changes nothing. |
| `Extraction.NormalizeIdempotent` | backend/utils/extractTextFromResume.js:19 | `normalise(normalise(s)) == normalise(s)`. |
| `Extraction.NormalizeEmpty` | backend/utils/extractTextFromResume.js:19 | The result is empty if and only if the parser's text has no visible character. |
| `Extraction.VisiblePrefix` | backend/utils/extractTextFromResume.js:19 | The longest whitespace-free prefix: it is a prefix, has no whitespace, and is followed by whitespace or the end. |
| `Extraction.CollapseVisiblePrefix` | backend/utils/extractTextFromResume.js:19 | `replace(/\s+/g, ' ')` leaves a whitespace-free prefix unchanged. |
| `Extraction.TrimEndAppend` | backend/utils/extractTextFromResume.js:19 | `trimEnd` of a concatenation only cuts the last part when that part has a visible character. |
| `Extraction.NormalizeSkipsLeadingSpace` | backend/utils/extractTextFromResume.js:19 | Leading whitespace of the parser's text does not change the normalised text. |
| `Extraction.NormalizeOfWord` | backend/utils/extractTextFromResume.js:19 | A whitespace-free word normalises to itself. |
| `Extraction.CollapseOfWordThenBlank` | backend/utils/extractTextFromResume.js:19 | A whitespace-free word followed only by whitespace collapses to the word and one space. |
| `Extraction.NormalizeOfWordThenSpace` | backend/utils/extractTextFromResume.js:19 | A word followed only by whitespace normalises to the word. |
| `Extraction.NormalizeOfWordThenMore` | backend/utils/extractTextFromResume.js:19 | A word, a whitespace run and further text normalise to the word, one space, and the further text's normalisation. |
| `Extraction.NormalizeIsJoinedChunks` | backend/utils/extractTextFromResume.js:19 | The normalised text is exactly the parser's maximal runs of non-whitespace characters, in order, joined by single spaces. |
| `Extraction.NormalizeOfVisibleStartIsJoined` | backend/utils/extractTextFromResume.js:19 | The same, for text that starts with a visible character or is empty. |
| `Extraction.ExtractText` | backend/utils/extractTextFromResume.js:4-23 | Success happens only for the PDF and DOCX media types and yields normalised text. Every failure message starts with the failure prefix. Any other type fails with exactly `"Failed to extract text from resume: Unsupported file type"`. A parser failure gives the prefix plus the parser's message, with no partial result. A parser success yields exactly the normalisation of the parser's text. |
| `Pipeline.ScreenUpload` | backend/controllers/candidateController.js:26-27 | An extraction failure ends the submission with the extractor's error. Otherwise the stored text is the normalised text, and the score and matches are the scorer's result on it, with a score between 0 and 100. |

## Left out

- Keyword regex metacharacters: the scorer splices each keyword into the
  regex unescaped. The model reads every keyword literally. So it is exact
  only for keywords without the regex metacharacters `\ ^ $ . | ? * + ( ) [ ] { }`.
  The model does not capture that such a keyword changes the pattern's
  meaning (in `Node.js` the dot matches any character), and it does not
  capture that some of them make `new RegExp` throw (`C++`), which aborts
  the whole call.
- Non-ASCII case: `toLowerCase` and the regex `i` flag are modelled for
  ASCII letters only. Characters such as the Kelvin sign, which lower-case
  to ASCII letters, are not modelled. `\w`, `\W`, `\s` and `trim` are modelled
  exactly, with the full ECMAScript whitespace set.
- Screening.RoundedPercent: the source rounds a double with `toFixed(2)`.
  The model rounds the exact ratio. The two can differ only at exact
  half-hundredth ties; the shortest keyword list where they differ has 160
  entries. At 23 matches of 160 the exact value is 14.375, which the model
  rounds to 1438, while the double product is 14.374999999999998 and
  `toFixed(2)` gives "14.37".
- Keywords.ExtractKeywords: the frequency dictionary is modelled as a map
  plus the list of its keys in insertion order. A plain JavaScript object
  lists integer-like keys such as `"2023"` first, in numeric order. That
  changes the tie order, and the model does not capture it. Tokens that
  name prototype members (`constructor`, `__proto__`) corrupt the object's
  counts; the model also leaves them out.
- Keywords.ExtractKeywords: the input is a string. The source throws a
  `TypeError` when it is not, which the model does not represent.
- Extraction.ExtractText: the parsers are parameters. PDF parsing, DOCX
  parsing, their `async` sequencing and their resource use are not
  modelled. A parser whose text is not a string, which the source would
  turn into a wrapped `TypeError`, is not modelled either.
- Pipeline.ScreenUpload: the rest of the upload handler is not part of this
  model: request validation, the job lookup, storing the submission, the
  `isNaN` guard on the score and the HTTP responses.
- The frontend pages, routes, schemas, other controllers and the server set-up
  are web and storage plumbing. They are not part of this model.
