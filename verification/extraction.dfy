/**
 * The text extractor: choose a parser by media type, wrap every failure
 * in one error message, and normalise the parsed text by collapsing every
 * whitespace run to one space and trimming the ends.
 *
 * The two parsers (the PDF parser and the DOCX raw-text extractor) are
 * foreign code; here they are parameters that either produce a text or fail
 * with a message.
 */
module Extraction {
  import opened Chars

  newtype byte = x: int | 0 <= x < 256

  /** Success with a value, or failure with an error message. */
  datatype Result<T> = Ok(value: T) | Err(message: string)

  /** A document parser: the text it extracts from a buffer, or the message of the error it throws. */
  type Parser = seq<byte> -> Result<string>

  const PdfType: string := "application/pdf"
  const DocxType: string := "application/vnd.openxmlformats-officedocument.wordprocessingml.document"
  const FailurePrefix: string := "Failed to extract text from resume: "
  const UnsupportedMessage: string := "Unsupported file type"

  // ---------------------------------------------------------------------
  // Whitespace: `text.replace(/\s+/g, ' ').trim()`
  // ---------------------------------------------------------------------

  /** The characters of `s` that are not whitespace, in order. */
  function NonSpace(s: string): string {
    if s == [] then [] else (if IsSpace(s[0]) then [] else [s[0]]) + NonSpace(s[1..])
  }

  lemma {:induction false} NonSpaceAppend(a: string, b: string)
    ensures NonSpace(a + b) == NonSpace(a) + NonSpace(b)
    decreases |a|
  {
    if a == [] {
      assert a + b == b;
    } else {
      assert (a + b)[0] == a[0];
      assert (a + b)[1..] == a[1..] + b;
      NonSpaceAppend(a[1..], b);
    }
  }

  /** Positions `i` and `i + 1` of `r` both hold whitespace. */
  predicate AdjacentSpaces(r: string, i: int)
    requires 0 <= i < |r| - 1
  {
    IsSpace(r[i]) && IsSpace(r[i + 1])
  }

  /** Every whitespace character is a plain space, and no two whitespace characters are adjacent. */
  predicate SingleSpaced(r: string) {
    && (forall i :: 0 <= i < |r| && IsSpace(r[i]) ==> r[i] == ' ')
    && (forall i :: 0 <= i < |r| - 1 ==> !AdjacentSpaces(r, i))
  }

  /** What normalisation promises: single spaces only, and no whitespace at either end. */
  predicate IsNormalized(r: string) {
    SingleSpaced(r) && (r != [] ==> !IsSpace(r[0]) && !IsSpace(r[|r| - 1]))
  }

  /** A piece cut out of a single-spaced string is single-spaced. */
  lemma SingleSpacedSlice(r: string, s: string, i: int)
    requires InfixAt(r, s, i) && SingleSpaced(s)
    ensures SingleSpaced(r)
  {
    assert r == s[i..i + |r|];
    forall k | 0 <= k < |r| - 1
      ensures !AdjacentSpaces(r, k)
    {
      assert !AdjacentSpaces(s, i + k);
    }
  }

  /** Putting one character in front of a single-spaced string. */
  lemma Cons(c: char, rest: string)
    requires SingleSpaced(rest)
    requires IsSpace(c) ==> c == ' ' && (rest == [] || !IsSpace(rest[0]))
    ensures SingleSpaced([c] + rest)
    ensures NonSpace([c] + rest) == (if IsSpace(c) then [] else [c]) + NonSpace(rest)
  {
    var r := [c] + rest;
    assert r[1..] == rest;
    forall k | 0 <= k < |r| - 1
      ensures !AdjacentSpaces(r, k)
    {
      if k > 0 {
        assert !AdjacentSpaces(rest, k - 1);
      }
    }
  }

  /** `s` without its leading whitespace (`trimStart`). */
  function TrimStart(s: string): (r: string)
    ensures |r| <= |s| && r == s[|s| - |r|..]
    ensures s != [] && IsSpace(s[0]) ==> |r| < |s|
    ensures r != [] ==> !IsSpace(r[0])
    ensures NonSpace(r) == NonSpace(s)
  {
    if s != [] && IsSpace(s[0]) then
      var r := TrimStart(s[1..]);
      assert s[1..][|s| - 1 - |r|..] == s[|s| - |r|..];
      assert NonSpace(s) == NonSpace(s[1..]);
      r
    else s
  }

  /** `s` without its trailing whitespace (`trimEnd`). */
  function TrimEnd(s: string): (r: string)
    ensures |r| <= |s| && r == s[..|r|]
    ensures r != [] ==> !IsSpace(r[|r| - 1])
    ensures NonSpace(r) == NonSpace(s)
    decreases |s|
  {
    if s != [] && IsSpace(s[|s| - 1]) then
      var init := s[..|s| - 1];
      assert s == init + [s[|s| - 1]];
      NonSpaceAppend(init, [s[|s| - 1]]);
      TrimEnd(init)
    else s
  }

  /** `r` occurs in `s` starting at index `i`. */
  predicate InfixAt(r: string, s: string, i: int) {
    0 <= i <= |s| - |r| && s[i..i + |r|] == r
  }

  /** `s.trim()`. */
  function Trim(s: string): (r: string)
    ensures r != [] ==> !IsSpace(r[0]) && !IsSpace(r[|r| - 1])
    ensures NonSpace(r) == NonSpace(s)
  {
    TrimEnd(TrimStart(s))
  }

  /** `trim()` cuts only the two ends: what is left is the piece of `s` that starts where the leading whitespace ends. */
  lemma TrimIsInfix(s: string)
    ensures InfixAt(Trim(s), s, |s| - |TrimStart(s)|)
  {
    var t := TrimStart(s);
    var r := TrimEnd(t);
    var a := |s| - |t|;
    assert Trim(s) == r;
    assert t == s[a..];
    assert r == t[..|r|];
    SliceOfSuffix(s, a, |r|);
    assert InfixAt(r, s, a);
  }

  /** A prefix of the suffix of `s` that starts at `a` is the piece of `s` from `a`. */
  lemma SliceOfSuffix(s: string, a: nat, n: nat)
    requires a <= |s| && n <= |s| - a
    ensures s[a..][..n] == s[a..a + n]
  {
  }

  /** Trimming keeps a string single-spaced. */
  lemma TrimKeepsSingleSpaced(s: string)
    requires SingleSpaced(s)
    ensures SingleSpaced(Trim(s))
  {
    TrimIsInfix(s);
    SingleSpacedSlice(Trim(s), s, |s| - |TrimStart(s)|);
  }

  /** `s.replace(/\s+/g, ' ')`: every maximal whitespace run becomes one space. */
  function Collapse(s: string): (r: string)
    ensures NonSpace(r) == NonSpace(s)
    ensures s == [] ==> r == []
    ensures s != [] ==> r != [] && (IsSpace(s[0]) <==> IsSpace(r[0]))
    decreases |s|
  {
    if s == [] then []
    else if IsSpace(s[0]) then
      var t := TrimStart(s);
      var rest := Collapse(t);
      assert NonSpace(s) == NonSpace(t);
      assert ([' '] + rest)[1..] == rest;
      [' '] + rest
    else
      var rest := Collapse(s[1..]);
      assert ([s[0]] + rest)[1..] == rest;
      [s[0]] + rest
  }

  /** Collapsing leaves only single plain spaces. */
  lemma {:induction false} CollapseIsSingleSpaced(s: string)
    ensures SingleSpaced(Collapse(s))
    decreases |s|
  {
    if s != [] {
      if IsSpace(s[0]) {
        var t := TrimStart(s);
        CollapseIsSingleSpaced(t);
        Cons(' ', Collapse(t));
      } else {
        CollapseIsSingleSpaced(s[1..]);
        Cons(s[0], Collapse(s[1..]));
      }
    }
  }

  /** The normalisation applied to the parser's output. */
  function Normalize(s: string): (r: string)
    ensures IsNormalized(r)
    ensures NonSpace(r) == NonSpace(s)
  {
    CollapseIsSingleSpaced(s);
    TrimKeepsSingleSpaced(Collapse(s));
    Trim(Collapse(s))
  }

  /** Collapsing changes nothing in a string that is already single-spaced. */
  lemma {:induction false} CollapseOfSingleSpaced(s: string)
    requires SingleSpaced(s)
    ensures Collapse(s) == s
    decreases |s|
  {
    if s != [] {
      SingleSpacedTail(s);
      CollapseOfSingleSpaced(s[1..]);
      if IsSpace(s[0]) {
        SingleSpacedSpaceHead(s);
      }
      assert s == [s[0]] + s[1..];
    }
  }

  /** Dropping the first character keeps a string single-spaced. */
  lemma SingleSpacedTail(s: string)
    requires SingleSpaced(s) && s != []
    ensures SingleSpaced(s[1..])
  {
    var tail := s[1..];
    assert s[1..1 + |tail|] == tail;
    SingleSpacedSlice(tail, s, 1);
  }

  /** A single-spaced string that starts with whitespace starts with one plain space and nothing more to trim. */
  lemma SingleSpacedSpaceHead(s: string)
    requires SingleSpaced(s) && s != [] && IsSpace(s[0])
    ensures s[0] == ' ' && TrimStart(s) == s[1..]
  {
    var tail := s[1..];
    assert tail != [] ==> !AdjacentSpaces(s, 0) && !IsSpace(tail[0]);
    assert TrimStart(tail) == tail;
  }

  /** A normalised string is its own normalisation. */
  lemma NormalizeOfNormalized(r: string)
    requires IsNormalized(r)
    ensures Normalize(r) == r
  {
    CollapseOfSingleSpaced(r);
  }

  /** Normalising twice is normalising once. */
  lemma NormalizeIdempotent(s: string)
    ensures Normalize(Normalize(s)) == Normalize(s)
  {
    NormalizeOfNormalized(Normalize(s));
  }

  /** The normalised text is empty exactly when the parser's text has no visible character. */
  lemma NormalizeEmpty(s: string)
    ensures Normalize(s) == [] <==> NonSpace(s) == []
  {
    var r := Normalize(s);
    if r != [] {
      assert NonSpace(r) == [r[0]] + NonSpace(r[1..]);
    }
  }

  // ---------------------------------------------------------------------
  // Reference definition: the visible chunks, joined by single spaces
  // ---------------------------------------------------------------------

  /** No character of `w` is whitespace. */
  predicate NoSpace(w: string) {
    forall i :: 0 <= i < |w| ==> !IsSpace(w[i])
  }

  /** The longest prefix of `s` without whitespace. */
  function VisiblePrefix(s: string): (w: string)
    ensures |w| <= |s| && w == s[..|w|] && NoSpace(w)
    ensures |w| < |s| ==> IsSpace(s[|w|])
    ensures s != [] && !IsSpace(s[0]) ==> w != []
  {
    if s != [] && !IsSpace(s[0]) then [s[0]] + VisiblePrefix(s[1..]) else []
  }

  /** The maximal runs of non-whitespace characters of `s`, in order. */
  function Chunks(s: string): seq<string>
    decreases |s|
  {
    var t := TrimStart(s);
    if t == [] then []
    else
      var w := VisiblePrefix(t);
      [w] + Chunks(t[|w|..])
  }

  /** The strings of `cs` with one space between neighbours. */
  function JoinSpaced(cs: seq<string>): string {
    if cs == [] then []
    else if |cs| == 1 then cs[0]
    else cs[0] + " " + JoinSpaced(cs[1..])
  }

  /** A visible first character is kept as it is. */
  lemma CollapseVisibleHead(c: char, u: string)
    requires !IsSpace(c)
    ensures Collapse([c] + u) == [c] + Collapse(u)
  {
    assert ([c] + u)[1..] == u;
  }

  /** Collapsing runs of whitespace passes over a visible prefix unchanged. */
  lemma {:induction false} CollapseVisiblePrefix(w: string, u: string)
    requires NoSpace(w)
    ensures Collapse(w + u) == w + Collapse(u)
    decreases |w|
  {
    if w == [] {
      assert w + u == u;
    } else {
      var c, v := [w[0]], w[1..];
      assert w == c + v;
      Assoc(c, v, u);
      CollapseVisibleHead(w[0], v + u);
      CollapseVisiblePrefix(v, u);
      Assoc(c, v, Collapse(u));
    }
  }

  /** Trailing whitespace is cut from the last part only, when that part has something visible. */
  lemma {:induction false} TrimEndAppend(x: string, y: string)
    requires TrimEnd(y) != []
    ensures TrimEnd(x + y) == x + TrimEnd(y)
    decreases |y|
  {
    var xy := x + y;
    assert xy != [] && xy[|xy| - 1] == y[|y| - 1];
    if IsSpace(y[|y| - 1]) {
      var yi := y[..|y| - 1];
      TrimEndDropSpace(y);
      TrimEndDropSpace(xy);
      assert xy[..|xy| - 1] == x + yi;
      TrimEndAppend(x, yi);
    } else {
      TrimEndOfVisible(xy);
      TrimEndOfVisible(y);
    }
  }

  /** A trailing whitespace character is cut. */
  lemma TrimEndDropSpace(s: string)
    requires s != [] && IsSpace(s[|s| - 1])
    ensures TrimEnd(s) == TrimEnd(s[..|s| - 1])
  {
  }

  /** Leading whitespace does not change the normalised text. */
  lemma NormalizeSkipsLeadingSpace(s: string)
    ensures Normalize(s) == Normalize(TrimStart(s))
  {
    var t := TrimStart(s);
    if s != [] && IsSpace(s[0]) {
      var c := Collapse(t);
      assert Collapse(s) == [' '] + c;
      assert ([' '] + c)[1..] == c;
      assert TrimStart([' '] + c) == TrimStart(c);
    } else {
      assert t == s;
    }
  }

  /** A visible word is its own normalisation. */
  lemma NormalizeOfWord(w: string)
    requires w != [] && NoSpace(w)
    ensures Normalize(w) == w
  {
    CollapseVisiblePrefix(w, []);
    assert w + [] == w;
    assert TrimStart(w) == w;
    assert TrimEnd(w) == w;
  }

  /** Collapsing a visible word followed by a whitespace run. */
  lemma CollapseOfWordThenSpace(w: string, u: string)
    requires NoSpace(w)
    requires u != [] && IsSpace(u[0])
    ensures Collapse(w + u) == w + ([' '] + Collapse(TrimStart(u)))
  {
    CollapseVisiblePrefix(w, u);
  }

  /** Trimming a visible word followed by one space leaves the word. */
  lemma TrimOfWordThenSpace(w: string)
    requires w != [] && NoSpace(w)
    ensures Trim(w + [' ']) == w
  {
    var ws := w + [' '];
    TrimStartOfVisible(ws);
    assert ws[..|ws| - 1] == w;
    TrimEndOfVisible(w);
  }

  /** Text that starts with a visible character has nothing to trim at the start. */
  lemma TrimStartOfVisible(s: string)
    requires s != [] && !IsSpace(s[0])
    ensures TrimStart(s) == s
  {
  }

  /** Text that ends with a visible character has nothing to trim at the end. */
  lemma TrimEndOfVisible(s: string)
    requires s != [] && !IsSpace(s[|s| - 1])
    ensures TrimEnd(s) == s
  {
  }

  /** Trimming text whose two parts both start visibly trims only the second part's end. */
  lemma TrimOfVisibleStarts(x: string, c: string)
    requires x != [] && !IsSpace(x[0])
    requires c != [] && !IsSpace(c[0])
    ensures Trim(x + c) == x + Trim(c)
  {
    assert TrimStart(x + c) == x + c;
    assert TrimStart(c) == c;
    assert NonSpace(c) == [c[0]] + NonSpace(c[1..]);
    TrimEndAppend(x, c);
  }

  /** A visible word followed only by whitespace collapses to the word and one space. */
  lemma CollapseOfWordThenBlank(w: string, u: string)
    requires NoSpace(w)
    requires u != [] && IsSpace(u[0]) && TrimStart(u) == []
    ensures Collapse(w + u) == w + [' ']
  {
    CollapseOfWordThenSpace(w, u);
    assert Collapse([]) == [];
    assert [' '] + [] == [' '];
  }

  /** A visible word followed only by whitespace normalises to the word. */
  lemma NormalizeOfWordThenSpace(w: string, u: string)
    requires w != [] && NoSpace(w)
    requires u != [] && IsSpace(u[0]) && TrimStart(u) == []
    ensures Normalize(w + u) == w
  {
    CollapseOfWordThenBlank(w, u);
    TrimOfWordThenSpace(w);
  }

  /** Text that collapses into two visibly starting parts normalises to the first part and the trimmed second. */
  lemma NormalizeOfVisibleParts(x: string, ws: string, c: string)
    requires Collapse(x) == ws + c
    requires ws != [] && !IsSpace(ws[0])
    requires c != [] && !IsSpace(c[0])
    ensures Normalize(x) == ws + Trim(c)
  {
    TrimOfVisibleStarts(ws, c);
  }

  /** Collapsing a visible word, a whitespace run and more text. */
  lemma CollapseOfWordThenMore(w: string, u: string)
    requires NoSpace(w)
    requires u != [] && IsSpace(u[0])
    ensures Collapse(w + u) == (w + [' ']) + Collapse(TrimStart(u))
  {
    CollapseOfWordThenSpace(w, u);
    Assoc(w, [' '], Collapse(TrimStart(u)));
  }

  /** A visible word, a whitespace run and more text normalise to the word, a space and the rest's normalisation. */
  lemma NormalizeOfWordThenMore(w: string, u: string)
    requires w != [] && NoSpace(w)
    requires u != [] && IsSpace(u[0]) && TrimStart(u) != []
    ensures Normalize(w + u) == w + " " + Normalize(TrimStart(u))
  {
    CollapseOfWordThenMore(w, u);
    NormalizeOfSpacedParts(w + u, w, TrimStart(u));
  }

  /** Text that collapses into a visible word, a space and the collapse of visibly starting text. */
  lemma NormalizeOfSpacedParts(x: string, w: string, v: string)
    requires w != [] && !IsSpace(w[0])
    requires v != [] && !IsSpace(v[0])
    requires Collapse(x) == (w + [' ']) + Collapse(v)
    ensures Normalize(x) == w + " " + Normalize(v)
  {
    var ws := w + [' '];
    assert ws[0] == w[0];
    NormalizeOfVisibleParts(x, ws, Collapse(v));
  }

  /** Joining one more string in front adds it and a space. */
  lemma JoinSpacedCons(w: string, cs: seq<string>)
    requires cs != []
    ensures JoinSpaced([w] + cs) == w + " " + JoinSpaced(cs)
  {
    assert ([w] + cs)[1..] == cs;
  }

  /** Text is its visible prefix followed by the rest. */
  lemma SplitAtVisiblePrefix(t: string)
    ensures t == VisiblePrefix(t) + t[|VisiblePrefix(t)|..]
  {
    var w := VisiblePrefix(t);
    assert t == t[..|w|] + t[|w|..];
  }

  /** Leading whitespace does not change the chunks. */
  lemma ChunksSkipLeadingSpace(u: string)
    ensures Chunks(u) == Chunks(TrimStart(u))
  {
    var v := TrimStart(u);
    assert TrimStart(v) == v;
  }

  /**
   * The normalised text is the input's maximal runs of non-whitespace
   * characters joined by single spaces.
   */
  lemma NormalizeIsJoinedChunks(s: string)
    ensures Normalize(s) == JoinSpaced(Chunks(s))
  {
    var t := TrimStart(s);
    assert Normalize(s) == Normalize(t) by { NormalizeSkipsLeadingSpace(s); }
    assert Chunks(s) == Chunks(t) by { ChunksSkipLeadingSpace(s); }
    NormalizeOfVisibleStartIsJoined(t);
  }

  /** The same, for text that does not start with whitespace. */
  lemma {:induction false} NormalizeOfVisibleStartIsJoined(t: string)
    requires t == [] || !IsSpace(t[0])
    ensures Normalize(t) == JoinSpaced(Chunks(t))
    decreases |t|
  {
    if t == [] {
      assert Normalize(t) == [] by { NormalizeEmpty(t); }
    } else {
      var w := VisiblePrefix(t);
      var u := t[|w|..];
      assert t == w + u by { SplitAtVisiblePrefix(t); }
      assert Chunks(t) == [w] + Chunks(u) by { assert TrimStart(t) == t; }
      if u == [] {
        assert Normalize(t) == w by {
          assert w + [] == w;
          NormalizeOfWord(w);
        }
      } else {
        var v := TrimStart(u);
        assert Chunks(u) == Chunks(v) by { ChunksSkipLeadingSpace(u); }
        if v == [] {
          assert Normalize(t) == w by { NormalizeOfWordThenSpace(w, u); }
        } else {
          var rest := Chunks(v);
          assert Normalize(t) == w + " " + JoinSpaced(rest) by {
            NormalizeOfWordThenMore(w, u);
            NormalizeOfVisibleStartIsJoined(v);
          }
          assert rest != [] by { assert TrimStart(v) == v; }
          JoinSpacedCons(w, rest);
        }
      }
    }
  }

  /** One space when `b` holds, nothing otherwise. */
  function SpaceIf(b: bool): string {
    if b then " " else ""
  }

  /** The space `replace(/\s+/g, ' ')` leaves at the end: `s` ends with whitespace after something visible. */
  function TrailingSpace(s: string): string {
    SpaceIf(s != [] && Chunks(s) != [] && IsSpace(s[|s| - 1]))
  }

  /** Non-empty text without visible characters ends with whitespace. */
  lemma EndsInSpace(u: string)
    requires u != [] && NonSpace(u) == []
    ensures IsSpace(u[|u| - 1])
  {
    var init := u[..|u| - 1];
    assert u == init + [u[|u| - 1]];
    NonSpaceAppend(init, [u[|u| - 1]]);
  }

  /** The text after the first chunk of visibly starting text. */
  function AfterChunk(t: string): string {
    t[|VisiblePrefix(t)|..]
  }

  /** Visibly starting text is its first chunk followed by the rest, and its chunks are that chunk and the rest's. */
  lemma FirstChunk(t: string)
    requires t != [] && !IsSpace(t[0])
    ensures t == VisiblePrefix(t) + AfterChunk(t)
    ensures Chunks(t) == [VisiblePrefix(t)] + Chunks(AfterChunk(t))
    ensures t[|t| - 1] == if AfterChunk(t) == [] then t[|VisiblePrefix(t)| - 1] else AfterChunk(t)[|AfterChunk(t)| - 1]
  {
    SplitAtVisiblePrefix(t);
    assert TrimStart(t) == t;
  }

  /** Collapsing text that is one chunk. */
  lemma CollapseOneChunk(t: string)
    requires t != [] && !IsSpace(t[0]) && AfterChunk(t) == []
    ensures Collapse(t) == JoinSpaced(Chunks(t)) + TrailingSpace(t)
  {
    var w := VisiblePrefix(t);
    FirstChunk(t);
    assert Collapse(t) == w by {
      CollapseVisiblePrefix(w, []);
      assert w + [] == w;
    }
    assert JoinSpaced(Chunks(t)) == w by { assert Chunks([]) == []; }
    assert TrailingSpace(t) == "";
    assert w == w + "";
  }

  /** Collapsing text that is one chunk followed by whitespace. */
  lemma CollapseChunkThenSpace(t: string)
    requires t != [] && !IsSpace(t[0]) && AfterChunk(t) != [] && TrimStart(AfterChunk(t)) == []
    ensures Collapse(t) == JoinSpaced(Chunks(t)) + TrailingSpace(t)
  {
    var w, u := VisiblePrefix(t), AfterChunk(t);
    assert Collapse(t) == w + " " by {
      FirstChunk(t);
      CollapseOfWordThenMore(w, u);
      assert Collapse([]) == [];
    }
    assert JoinSpaced(Chunks(t)) == w by {
      FirstChunk(t);
      ChunksSkipLeadingSpace(u);
      assert Chunks([]) == [];
    }
    assert TrailingSpace(t) == " " by {
      FirstChunk(t);
      EndsInSpace(u);
    }
  }

  /** The chunks of text that is one chunk, whitespace, and more visible text. */
  lemma ChunksThenMore(t: string)
    requires t != [] && !IsSpace(t[0]) && AfterChunk(t) != [] && TrimStart(AfterChunk(t)) != []
    ensures var v := TrimStart(AfterChunk(t));
      Chunks(t) == [VisiblePrefix(t)] + Chunks(v) && Chunks(v) != []
  {
    var u := AfterChunk(t);
    var v := TrimStart(u);
    FirstChunk(t);
    ChunksSkipLeadingSpace(u);
    assert TrimStart(v) == v;
  }

  /** The joined chunks of text that is one chunk, whitespace, and more visible text. */
  lemma JoinedChunksThenMore(t: string)
    requires t != [] && !IsSpace(t[0]) && AfterChunk(t) != [] && TrimStart(AfterChunk(t)) != []
    ensures JoinSpaced(Chunks(t)) == VisiblePrefix(t) + " " + JoinSpaced(Chunks(TrimStart(AfterChunk(t))))
  {
    ChunksThenMore(t);
    JoinSpacedCons(VisiblePrefix(t), Chunks(TrimStart(AfterChunk(t))));
  }

  /** The trailing space of text that is one chunk, whitespace, and more visible text is that of the more visible text. */
  lemma TrailingThenMore(t: string)
    requires t != [] && !IsSpace(t[0]) && AfterChunk(t) != [] && TrimStart(AfterChunk(t)) != []
    ensures TrailingSpace(t) == TrailingSpace(TrimStart(AfterChunk(t)))
  {
    ChunksThenMore(t);
    AfterChunkLast(t);
    TrimStartLast(AfterChunk(t));
  }

  /** Text and what follows its first chunk end with the same character. */
  lemma AfterChunkLast(t: string)
    requires AfterChunk(t) != []
    ensures t[|t| - 1] == AfterChunk(t)[|AfterChunk(t)| - 1]
  {
  }

  /** Collapsing text that is one chunk, whitespace, and more text whose collapse is known. */
  lemma CollapseChunkThenMore(t: string)
    requires t != [] && !IsSpace(t[0]) && AfterChunk(t) != []
    requires var v := TrimStart(AfterChunk(t));
      v != [] && Collapse(v) == JoinSpaced(Chunks(v)) + TrailingSpace(v)
    ensures Collapse(t) == JoinSpaced(Chunks(t)) + TrailingSpace(t)
  {
    var w, u := VisiblePrefix(t), AfterChunk(t);
    var v := TrimStart(u);
    assert Collapse(t) == (w + " ") + Collapse(v) by {
      FirstChunk(t);
      CollapseOfWordThenMore(w, u);
    }
    JoinedChunksThenMore(t);
    TrailingThenMore(t);
    Assoc(w + " ", JoinSpaced(Chunks(v)), TrailingSpace(v));
  }

  /** Collapsing text that starts visibly: its chunks joined by single spaces, then the trailing space, if any. */
  lemma {:induction false} CollapseOfVisibleStart(t: string)
    requires t == [] || !IsSpace(t[0])
    ensures Collapse(t) == JoinSpaced(Chunks(t)) + TrailingSpace(t)
    decreases |t|
  {
    if t != [] {
      var u := AfterChunk(t);
      if u == [] {
        CollapseOneChunk(t);
      } else if TrimStart(u) == [] {
        CollapseChunkThenSpace(t);
      } else {
        assert |u| < |t| by { FirstChunk(t); }
        CollapseOfVisibleStart(TrimStart(u));
        CollapseChunkThenMore(t);
      }
    }
  }

  /**
   * `replace(/\s+/g, ' ')` in full: one space for a leading whitespace run,
   * the input's maximal runs of non-whitespace characters joined by single
   * spaces, and one space for a trailing whitespace run that follows
   * something visible.
   */
  lemma CollapseIsJoinedChunks(s: string)
    ensures Collapse(s) == SpaceIf(s != [] && IsSpace(s[0])) + JoinSpaced(Chunks(s)) + TrailingSpace(s)
  {
    var t := TrimStart(s);
    CollapseLeading(s);
    TrimStartKeepsChunks(s);
    CollapseOfVisibleStart(t);
    Assoc(SpaceIf(s != [] && IsSpace(s[0])), JoinSpaced(Chunks(t)), TrailingSpace(t));
  }

  /** A leading whitespace run becomes one space in front of the collapse of the rest. */
  lemma CollapseLeading(s: string)
    ensures Collapse(s) == SpaceIf(s != [] && IsSpace(s[0])) + Collapse(TrimStart(s))
  {
    if !(s != [] && IsSpace(s[0])) {
      assert TrimStart(s) == s;
    }
  }

  /** Leading whitespace changes neither the chunks nor the trailing space. */
  lemma TrimStartKeepsChunks(s: string)
    ensures Chunks(TrimStart(s)) == Chunks(s)
    ensures TrailingSpace(TrimStart(s)) == TrailingSpace(s)
  {
    ChunksSkipLeadingSpace(s);
    TrimStartLast(s);
  }

  /** Cutting leading whitespace keeps the last character of what is left. */
  lemma {:induction false} TrimStartLast(s: string)
    ensures TrimStart(s) != [] ==> TrimStart(s)[|TrimStart(s)| - 1] == s[|s| - 1]
    decreases |s|
  {
    if s != [] && IsSpace(s[0]) {
      TrimStartLast(s[1..]);
    }
  }

  // ---------------------------------------------------------------------
  // `extractTextFromResume(buffer, mimetype)`
  // ---------------------------------------------------------------------

  /**
   * Dispatch on the media type, normalise the parser's text, and re-wrap
   * every error, the unsupported-type error included, with `FailurePrefix`.
   */
  function ExtractText(buffer: seq<byte>, mimetype: string, pdfParse: Parser, extractRawText: Parser): (r: Result<string>)
    ensures r.Ok? ==> (mimetype == PdfType || mimetype == DocxType) && IsNormalized(r.value)
    ensures r.Err? ==> FailurePrefix <= r.message
    ensures mimetype != PdfType && mimetype != DocxType ==> r == Err(FailurePrefix + UnsupportedMessage)
    ensures mimetype == PdfType ==>
      match pdfParse(buffer)
      case Ok(text) => r == Ok(Normalize(text))
      case Err(msg) => r == Err(FailurePrefix + msg)
    ensures mimetype == DocxType ==>
      match extractRawText(buffer)
      case Ok(text) => r == Ok(Normalize(text))
      case Err(msg) => r == Err(FailurePrefix + msg)
  {
    var parsed :=
      if mimetype == PdfType then pdfParse(buffer)
      else if mimetype == DocxType then extractRawText(buffer)
      else Err(UnsupportedMessage);
    match parsed
    case Ok(text) => Ok(Normalize(text))
    case Err(msg) => Err(FailurePrefix + msg)
  }
}
