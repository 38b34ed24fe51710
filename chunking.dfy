/** The word-window chunker `chunk_text`: the whitespace-split words of a text
    are cut into windows of at most `maxWords` words, each starting
    `maxWords - overlap` words after the previous one, and every window is
    joined back with single spaces. */
module Chunking {
  import opened Builtins

  /** The defaults `ingest` relies on. */
  const MaxWords: int := 200
  const Overlap: int := 40

  /** The window of the chunk with index `j`: `words[j*step : j*step + maxWords]`. */
  function Window(words: seq<string>, maxWords: int, step: int, j: nat): seq<string> {
    Slice(words, j * step, j * step + maxWords)
  }

  /** The word count divided by the step, rounded up. */
  function CeilDiv(n: nat, d: int): nat
    requires d > 0
  {
    (n + d - 1) / d
  }

  /** What `chunk_text` returns for a word list: chunk `j` is the join of window
      `j`, for every start `j * step` below the word count. */
  function Chunks(words: seq<string>, maxWords: int, overlap: int): seq<string>
    requires overlap < maxWords
  {
    var step := maxWords - overlap;
    seq(CeilDiv(|words|, step), j requires 0 <= j => Join(Window(words, maxWords, step, j)))
  }

  /** The loop index `i` of `chunk_text` after `t` passes. */
  function StartAfter(t: nat, step: int): int {
    if t == 0 then 0 else StartAfter(t - 1, step) + step
  }

  method ChunkText(text: string, maxWords: int, overlap: int) returns (chunks: seq<string>)
    requires overlap < maxWords
    ensures chunks == Chunks(Words(text), maxWords, overlap)
  {
    var words := Words(text);
    ghost var step := maxWords - overlap;
    chunks := [];
    var i := 0;
    while i < |words|
      invariant i == StartAfter(|chunks|, step)
      invariant |chunks| == 0 || StartAfter(|chunks| - 1, step) < |words|
      invariant forall j :: 0 <= j < |chunks| ==> chunks[j] == Join(Window(words, maxWords, step, j))
      decreases |words| - i
    {
      StartAfterIsMultiple(|chunks|, step);
      var chunk := Join(Slice(words, i, i + maxWords));
      assert chunk == Join(Window(words, maxWords, step, |chunks|));
      ExtendChunks(words, maxWords, step, chunks, chunk);
      chunks := chunks + [chunk];
      i := i + maxWords - overlap;
    }
    LoopExit(words, maxWords, overlap, chunks);
  }

  /** Appending the next window's join keeps every chunk the join of its window. */
  lemma ExtendChunks(words: seq<string>, maxWords: int, step: int, chunks: seq<string>, chunk: string)
    requires forall j :: 0 <= j < |chunks| ==> chunks[j] == Join(Window(words, maxWords, step, j))
    requires chunk == Join(Window(words, maxWords, step, |chunks|))
    ensures forall j :: 0 <= j < |chunks + [chunk]| ==>
      (chunks + [chunk])[j] == Join(Window(words, maxWords, step, j))
  {
    forall j | 0 <= j < |chunks + [chunk]|
      ensures (chunks + [chunk])[j] == Join(Window(words, maxWords, step, j))
    {
      if j < |chunks| {
        assert (chunks + [chunk])[j] == chunks[j];
      }
    }
  }

  /** When the loop of `chunk_text` stops, it has produced `Chunks`. */
  lemma LoopExit(words: seq<string>, maxWords: int, overlap: int, chunks: seq<string>)
    requires overlap < maxWords
    requires StartAfter(|chunks|, maxWords - overlap) >= |words|
    requires |chunks| == 0 || StartAfter(|chunks| - 1, maxWords - overlap) < |words|
    requires forall j :: 0 <= j < |chunks| ==> chunks[j] == Join(Window(words, maxWords, maxWords - overlap, j))
    ensures chunks == Chunks(words, maxWords, overlap)
  {
    var step := maxWords - overlap;
    StartAfterIsMultiple(|chunks|, step);
    if |chunks| > 0 {
      StartAfterIsMultiple(|chunks| - 1, step);
    }
    CeilDivUnique(|chunks|, |words|, step);
  }

  // Arithmetic about the chunk count.

  lemma MulMono(a: int, b: int, d: int)
    requires a <= b && d >= 0
    ensures a * d <= b * d
  {
    assert b * d - a * d == (b - a) * d;
  }

  lemma {:induction false} CeilDivBounds(n: nat, d: int)
    requires d > 0
    ensures CeilDiv(n, d) * d >= n
    ensures CeilDiv(n, d) == 0 || (CeilDiv(n, d) - 1) * d < n
  {
    var m := n + d - 1;
    var q, r := m / d, m % d;
    assert m == q * d + r && 0 <= r < d;
    assert q * d - d == (q - 1) * d;
  }

  /** The count `c` with `(c - 1) * d < n <= c * d` is the rounded-up quotient. */
  lemma CeilDivUnique(c: nat, n: nat, d: int)
    requires d > 0
    requires c * d >= n
    requires c == 0 || (c - 1) * d < n
    ensures c == CeilDiv(n, d)
  {
    var q := CeilDiv(n, d);
    CeilDivBounds(n, d);
    if c < q {
      MulMono(c, q - 1, d);
    } else if c > q {
      MulMono(q, c - 1, d);
    }
  }

  /** The number of chunks is the number of window starts below the word count. */
  lemma ChunkCount(words: seq<string>, maxWords: int, overlap: int)
    requires overlap < maxWords
    ensures var step, c := maxWords - overlap, |Chunks(words, maxWords, overlap)|;
      c * step >= |words| && (c == 0 || (c - 1) * step < |words|)
  {
    CeilDivBounds(|words|, maxWords - overlap);
  }

  /** A loop whose step is not positive never reaches the word count, so
      `chunk_text` does not terminate on a text with at least one word when
      `overlap >= maxWords`. */
  lemma {:induction false} NonPositiveStepNeverStops(words: seq<string>, maxWords: int, overlap: int, t: nat)
    requires maxWords - overlap <= 0 && words != []
    ensures StartAfter(t, maxWords - overlap) < |words|
  {
    if t > 0 {
      NonPositiveStepNeverStops(words, maxWords, overlap, t - 1);
    }
  }

  /** The loop index after `t` passes is `t` steps. */
  lemma {:induction false} StartAfterIsMultiple(t: nat, step: int)
    ensures StartAfter(t, step) == t * step
  {
    if t > 0 {
      StartAfterIsMultiple(t - 1, step);
      assert (t - 1) * step + step == t * step;
    }
  }

  // What each chunk holds.

  /** Splitting chunk `j` again gives exactly its window of the word list. */
  lemma ChunkWords(words: seq<string>, maxWords: int, overlap: int, j: nat)
    requires AllWords(words) && overlap < maxWords
    requires j < |Chunks(words, maxWords, overlap)|
    ensures Words(Chunks(words, maxWords, overlap)[j]) == Window(words, maxWords, maxWords - overlap, j)
  {
    var step := maxWords - overlap;
    var w := Window(words, maxWords, step, j);
    SliceOfWords(words, j * step, j * step + maxWords);
    assert Chunks(words, maxWords, overlap)[j] == Join(w);
    WordsOfJoin(w);
  }

  /** A slice of a word list is a word list. */
  lemma SliceOfWords(words: seq<string>, lo: int, hi: int)
    requires AllWords(words)
    ensures AllWords(Slice(words, lo, hi))
  {
    var w := Slice(words, lo, hi);
    forall i | 0 <= i < |w| ensures IsWord(w[i]) {
      SliceFrom(words, lo, hi, i);
    }
  }

  /** No chunk holds more than `maxWords` words. */
  lemma ChunkAtMostMaxWords(words: seq<string>, maxWords: int, overlap: int, j: nat)
    requires AllWords(words) && 0 <= maxWords && overlap < maxWords
    requires j < |Chunks(words, maxWords, overlap)|
    ensures |Words(Chunks(words, maxWords, overlap)[j])| <= maxWords
  {
    ChunkWords(words, maxWords, overlap, j);
    MulMono(0, j, maxWords - overlap);
  }

  /** With `0 <= overlap < maxWords` every word lies in some chunk: word `p`
      is word `p - j * step` of chunk `j = p / step`. */
  lemma Coverage(words: seq<string>, maxWords: int, overlap: int, p: nat)
    requires AllWords(words) && 0 <= overlap < maxWords
    requires p < |words|
    ensures var step := maxWords - overlap; var j := p / step;
      var cs := Chunks(words, maxWords, overlap);
      && 0 <= j < |cs|
      && j * step <= p < j * step + step
      && p - j * step < |Words(cs[j])|
      && Words(cs[j])[p - j * step] == words[p]
  {
    var step, n := maxWords - overlap, |words|;
    var j := p / step;
    QuotientBounds(p, step);
    StartBelowCount(j, n, step);
    ChunkWords(words, maxWords, overlap, j);
    WindowHolds(words, maxWords, step, j, p);
  }

  /** Window `j` holds the words from `j * step` up to `j * step + maxWords`. */
  lemma WindowHolds(words: seq<string>, maxWords: int, step: int, j: nat, p: nat)
    requires 0 < step && j * step <= p < j * step + maxWords && p < |words|
    ensures var w := Window(words, maxWords, step, j);
      p - j * step < |w| && w[p - j * step] == words[p]
  {
    var lo := j * step;
    var w := Window(words, maxWords, step, j);
    assert w == if lo + maxWords <= |words| then words[lo..lo + maxWords] else words[lo..];
  }

  lemma QuotientBounds(p: nat, d: int)
    requires d > 0
    ensures 0 <= p / d && (p / d) * d <= p < (p / d) * d + d
  {
    assert p == (p / d) * d + p % d && 0 <= p % d < d;
  }

  /** A window start below the word count belongs to a chunk. */
  lemma StartBelowCount(j: nat, n: nat, d: int)
    requires d > 0 && j * d < n
    ensures j < CeilDiv(n, d)
  {
    CeilDivBounds(n, d);
    if j >= CeilDiv(n, d) {
      MulMono(CeilDiv(n, d), j, d);
    }
  }

  /** An empty word list gives no chunks, and only an empty one does. */
  lemma NoChunksIffNoWords(words: seq<string>, maxWords: int, overlap: int)
    requires overlap < maxWords
    ensures Chunks(words, maxWords, overlap) == [] <==> words == []
  {
    ChunkCount(words, maxWords, overlap);
  }

  /** A text gives no chunks exactly when it is all whitespace. */
  lemma NoChunksIffBlank(text: string, maxWords: int, overlap: int)
    requires overlap < maxWords
    ensures Chunks(Words(text), maxWords, overlap) == [] <==> AllSpace(text)
  {
    NoChunksIffNoWords(Words(text), maxWords, overlap);
    NoWordsIffBlank(text);
  }

  /** There is exactly one chunk when the text has at least one and at most
      `step` words, and that chunk is the whole word list joined. */
  lemma SingleChunk(words: seq<string>, maxWords: int, overlap: int)
    requires 0 <= overlap < maxWords
    ensures var cs := Chunks(words, maxWords, overlap);
      |cs| == 1 <==> 0 < |words| <= maxWords - overlap
    ensures var cs := Chunks(words, maxWords, overlap);
      |cs| == 1 ==> cs[0] == Join(words)
  {
    var step := maxWords - overlap;
    ChunkCount(words, maxWords, overlap);
    if 0 < |words| <= step {
      CeilDivUnique(1, |words|, step);
    }
    if |Chunks(words, maxWords, overlap)| == 1 {
      assert Window(words, maxWords, step, 0) == words;
    }
  }

  /** A text of more than `step` but at most `maxWords` words gives a second
      chunk although the first already holds every word: the second window is
      a suffix of the first. */
  lemma TrailingChunk(words: seq<string>, maxWords: int, overlap: int)
    requires AllWords(words) && 0 <= overlap < maxWords
    requires maxWords - overlap < |words| <= maxWords
    ensures var cs := Chunks(words, maxWords, overlap);
      |cs| >= 2 && cs[0] == Join(words) && Words(cs[1]) == words[maxWords - overlap..]
  {
    FirstChunkWhole(words, maxWords, overlap);
    SecondChunkTail(words, maxWords, overlap);
  }

  /** A text that fits in one window has the whole word list as chunk 0. */
  lemma FirstChunkWhole(words: seq<string>, maxWords: int, overlap: int)
    requires overlap < maxWords && 0 < |words| <= maxWords
    ensures var cs := Chunks(words, maxWords, overlap);
      cs != [] && cs[0] == Join(words)
  {
    var step := maxWords - overlap;
    CeilDivBounds(|words|, step);
    FirstWindowWhole(words, maxWords, step);
    assert Chunks(words, maxWords, overlap)[0] == Join(Window(words, maxWords, step, 0));
  }

  /** For `step < n <= maxWords`, chunk 1 exists and splits into `words[step:]`. */
  lemma SecondChunkTail(words: seq<string>, maxWords: int, overlap: int)
    requires AllWords(words) && 0 <= overlap < maxWords
    requires maxWords - overlap < |words| <= maxWords
    ensures var cs := Chunks(words, maxWords, overlap);
      |cs| >= 2 && Words(cs[1]) == words[maxWords - overlap..]
  {
    var step := maxWords - overlap;
    AtLeastTwoChunks(words, maxWords, overlap);
    SecondWindowTail(words, maxWords, step);
    var w := Window(words, maxWords, step, 1);
    assert w == words[step..];
    ChunkWords(words, maxWords, overlap, 1);
    assert Words(Chunks(words, maxWords, overlap)[1]) == w;
  }

  lemma AtLeastTwoChunks(words: seq<string>, maxWords: int, overlap: int)
    requires overlap < maxWords && maxWords - overlap < |words|
    ensures |Chunks(words, maxWords, overlap)| >= 2
  {
    var c := |Chunks(words, maxWords, overlap)|;
    ChunkCount(words, maxWords, overlap);
    if c < 2 {
      MulMono(c, 1, maxWords - overlap);
    }
  }

  /** A text that fits in one window is window 0. */
  lemma FirstWindowWhole(words: seq<string>, maxWords: int, step: int)
    requires |words| <= maxWords
    ensures Window(words, maxWords, step, 0) == words
  {
    assert 0 * step == 0;
  }

  /** For `step < n <= maxWords`, window 1 is the tail after the first step. */
  lemma SecondWindowTail(words: seq<string>, maxWords: int, step: int)
    requires 0 < step < |words| <= maxWords
    ensures Window(words, maxWords, step, 1) == words[step..]
  {
    assert 1 * step == step;
  }

  /** With the defaults, a text of 161 words is cut into two chunks. */
  lemma DefaultsTrailingChunk(words: seq<string>)
    requires AllWords(words) && |words| == 161
    ensures |Chunks(words, MaxWords, Overlap)| == 2
  {
    CeilDivUnique(2, 161, MaxWords - Overlap);
  }

  // A chunker that stops at the first window reaching the end of the text.
  // The loop of `chunk_text` goes on while its index is below the word count,
  // so a window that already reaches the last word can be followed by windows
  // holding only words it has. `ChunksToEnd` is the chunker without those.

  /** The number of windows up to and including the first that reaches the
      end of `n` words. */
  function EndCount(n: nat, maxWords: int, step: int): nat
    requires 0 < step
  {
    if n == 0 then 0 else if n <= maxWords then 1 else 1 + CeilDiv(n - maxWords, step)
  }

  /** The windows of `chunk_text`, up to the first that reaches the end. */
  function ChunksToEnd(words: seq<string>, maxWords: int, overlap: int): seq<string>
    requires overlap < maxWords
  {
    var step := maxWords - overlap;
    seq(EndCount(|words|, maxWords, step), j requires 0 <= j => Join(Window(words, maxWords, step, j)))
  }

  /** The last window counted reaches the end, and the one before it does not. */
  lemma EndCountReachesEnd(n: nat, maxWords: int, step: int)
    requires 0 < step && n > 0
    ensures var c := EndCount(n, maxWords, step);
      && c >= 1
      && (c - 1) * step + maxWords >= n
      && (c == 1 || (c - 2) * step + maxWords < n)
  {
    if n > maxWords {
      var q := CeilDiv(n - maxWords, step);
      CeilDivBounds(n - maxWords, step);
      assert q > 0;
    }
  }

  /** Exactly one chunk when the text has at least one word and fits in one
      window, and that chunk is the whole word list joined. */
  lemma SingleChunkToEnd(words: seq<string>, maxWords: int, overlap: int)
    requires 0 <= overlap < maxWords
    ensures var cs := ChunksToEnd(words, maxWords, overlap);
      |cs| == 1 <==> 0 < |words| <= maxWords
    ensures var cs := ChunksToEnd(words, maxWords, overlap);
      |cs| == 1 ==> cs[0] == Join(words)
  {
    var step := maxWords - overlap;
    if |words| > maxWords {
      CeilDivBounds(|words| - maxWords, step);
    }
    if |words| <= maxWords {
      FirstWindowWhole(words, maxWords, step);
    }
  }

  /** No chunks exactly when there are no words. */
  lemma NoChunksToEndIffNoWords(words: seq<string>, maxWords: int, overlap: int)
    requires overlap < maxWords
    ensures ChunksToEnd(words, maxWords, overlap) == [] <==> words == []
  {
    if words != [] {
      EndCountReachesEnd(|words|, maxWords, maxWords - overlap);
    }
  }

  /** Splitting a chunk again gives its window. */
  lemma ChunkToEndWords(words: seq<string>, maxWords: int, overlap: int, j: nat)
    requires AllWords(words) && overlap < maxWords
    requires j < |ChunksToEnd(words, maxWords, overlap)|
    ensures Words(ChunksToEnd(words, maxWords, overlap)[j]) == Window(words, maxWords, maxWords - overlap, j)
  {
    var step := maxWords - overlap;
    var w := Window(words, maxWords, step, j);
    SliceOfWords(words, j * step, j * step + maxWords);
    assert ChunksToEnd(words, maxWords, overlap)[j] == Join(w);
    WordsOfJoin(w);
  }

  /** The chunk `ChunksToEnd` puts word `p` in: chunk `p / step`, or the last
      chunk when that one comes first. */
  function EndWindow(n: nat, maxWords: int, step: int, p: nat): int
    requires 0 < step
  {
    var c := EndCount(n, maxWords, step);
    if p / step < c then p / step else c - 1
  }

  /** Every word lies in a chunk of `ChunksToEnd`, at its place in the window. */
  lemma CoverageToEnd(words: seq<string>, maxWords: int, overlap: int, p: nat)
    requires AllWords(words) && 0 <= overlap < maxWords
    requires p < |words|
    ensures var step := maxWords - overlap; var cs := ChunksToEnd(words, maxWords, overlap);
      var j := EndWindow(|words|, maxWords, step, p);
      && 0 <= j < |cs|
      && j * step <= p < j * step + maxWords
      && p - j * step < |Words(cs[j])|
      && Words(cs[j])[p - j * step] == words[p]
  {
    var step := maxWords - overlap;
    var j := EndWindow(|words|, maxWords, step, p);
    EndWindowOf(|words|, maxWords, step, p);
    var w := Window(words, maxWords, step, j);
    WindowHolds(words, maxWords, step, j, p);
    assert p - j * step < |w| && w[p - j * step] == words[p];
    ChunkToEndWords(words, maxWords, overlap, j);
  }

  /** The window `EndWindow` picks for word `p` is counted and holds it. */
  lemma EndWindowOf(n: nat, maxWords: int, step: int, p: nat)
    requires 0 < step <= maxWords && p < n
    ensures var j := EndWindow(n, maxWords, step, p);
      0 <= j < EndCount(n, maxWords, step) && j * step <= p < j * step + maxWords
  {
    var c := EndCount(n, maxWords, step);
    EndCountReachesEnd(n, maxWords, step);
    QuotientBounds(p, step);
    if p / step >= c {
      MulMono(c - 1, p / step, step);
    }
  }

  /** The stopping chunker keeps a prefix of what `chunk_text` returns: the
      chunks up to the first whose window reaches the end of the text. */
  lemma ChunksToEndPrefix(words: seq<string>, maxWords: int, overlap: int)
    requires 0 <= overlap < maxWords
    ensures var short, long := ChunksToEnd(words, maxWords, overlap), Chunks(words, maxWords, overlap);
      |short| <= |long| && short == long[..|short|]
  {
    var step, n := maxWords - overlap, |words|;
    var c := EndCount(n, maxWords, step);
    if n > 0 {
      EndCountReachesEnd(n, maxWords, step);
      if c == 1 {
        StartBelowCount(0, n, step);
      } else {
        assert (c - 1) * step == (c - 2) * step + step;
        StartBelowCount(c - 1, n, step);
      }
    }
  }

  // Reconstructing the text from its chunks.

  /** The words of every chunk, as `split` sees them. */
  function SplitEach(chunks: seq<string>): (windows: seq<seq<string>>)
    ensures |windows| == |chunks|
  {
    seq(|chunks|, k requires 0 <= k < |chunks| => Words(chunks[k]))
  }

  /** Undoes the overlap: the first `step` words of every window but the
      last, then all words of the last window. */
  function Stitch(windows: seq<seq<string>>, step: int): seq<string> {
    if windows == [] then []
    else if |windows| == 1 then windows[0]
    else Slice(windows[0], 0, step) + Stitch(windows[1..], step)
  }

  lemma {:induction false} StitchFrom(words: seq<string>, maxWords: int, step: int, ws: seq<seq<string>>, j: nat)
    requires 0 < step <= maxWords
    requires |ws| * step >= |words| && (|ws| - 1) * step < |words|
    requires forall k :: 0 <= k < |ws| ==> ws[k] == Window(words, maxWords, step, k)
    requires j < |ws|
    ensures j * step < |words|
    ensures Stitch(ws[j..], step) == words[j * step..]
    decreases |ws| - j
  {
    StartFacts(j, |ws|, step, |words|);
    if j == |ws| - 1 {
      LastWindow(words, maxWords, step, j);
      assert ws[j..] == [ws[j]];
    } else {
      StitchFrom(words, maxWords, step, ws, j + 1);
      StitchStep(words, maxWords, step, ws, j);
    }
  }

  /** One step of the reconstruction: window `j` contributes the words up to
      the start of window `j + 1`. */
  lemma StitchStep(words: seq<string>, maxWords: int, step: int, ws: seq<seq<string>>, j: nat)
    requires 0 < step <= maxWords
    requires j + 1 < |ws|
    requires 0 <= j * step && j * step + step < |words|
    requires ws[j] == Window(words, maxWords, step, j)
    requires (j + 1) * step == j * step + step
    requires Stitch(ws[j + 1..], step) == words[(j + 1) * step..]
    ensures Stitch(ws[j..], step) == words[j * step..]
  {
    var lo := j * step;
    var next := lo + step;
    InnerWindow(words, maxWords, step, j);
    var rest := ws[j..];
    assert |rest| >= 2 && rest[0] == ws[j] && rest[1..] == ws[j + 1..];
    assert Stitch(rest, step) == words[lo..next] + words[next..];
    assert words[lo..] == words[lo..next] + words[next..];
  }

  /** The last window runs to the end of the word list. */
  lemma LastWindow(words: seq<string>, maxWords: int, step: int, j: nat)
    requires 0 < step <= maxWords
    requires j * step < |words| <= j * step + step
    ensures Window(words, maxWords, step, j) == words[j * step..]
  {
  }

  /** The first `step` words of an inner window are the words up to the next start. */
  lemma InnerWindow(words: seq<string>, maxWords: int, step: int, j: nat)
    requires 0 < step <= maxWords
    requires 0 <= j * step && j * step + step < |words|
    ensures Slice(Window(words, maxWords, step, j), 0, step) == words[j * step..j * step + step]
  {
    var lo := j * step;
    var w := Window(words, maxWords, step, j);
    if lo + maxWords <= |words| {
      assert w == words[lo..lo + maxWords];
    } else {
      assert w == words[lo..];
    }
  }

  /** Where the start of chunk `j` lies, for `c` chunks of a text of `n` words. */
  lemma StartFacts(j: nat, c: nat, step: int, n: nat)
    requires 0 < step && j < c
    requires c * step >= n && (c - 1) * step < n
    ensures 0 <= j * step < n
    ensures (j + 1) * step == j * step + step
    ensures j == c - 1 ==> n <= j * step + step
    ensures j < c - 1 ==> j * step + step < n
  {
    MulMono(0, j, step);
    MulMono(j, c - 1, step);
    if j < c - 1 {
      MulMono(j + 1, c - 1, step);
    }
  }

  /** Splitting every chunk and dropping the overlap rebuilds the word list. */
  lemma UnchunkChunks(words: seq<string>, maxWords: int, overlap: int)
    requires AllWords(words) && 0 <= overlap < maxWords
    ensures Stitch(SplitEach(Chunks(words, maxWords, overlap)), maxWords - overlap) == words
  {
    var cs := Chunks(words, maxWords, overlap);
    var ws := SplitEach(cs);
    NoChunksIffNoWords(words, maxWords, overlap);
    if words != [] {
      ChunkCount(words, maxWords, overlap);
      forall k | 0 <= k < |ws|
        ensures ws[k] == Window(words, maxWords, maxWords - overlap, k)
      {
        ChunkWords(words, maxWords, overlap, k);
      }
      StitchFrom(words, maxWords, maxWords - overlap, ws, 0);
      assert ws[0..] == ws;
    }
  }
}
