/** Token-window chunking and the per-chunk token ceiling applied before
    embedding (rag-backend/app/core/embeddings.py). The tokenizer is opaque:
    `encode` and `decode` are arbitrary functions and nothing here assumes that
    decoding an encoding gives the text back. */
module Chunker {
  import opened Common

  type Token = int

  /** The encoder and decoder of one embedding model's tokenizer. */
  datatype Tokenizer = Tokenizer(encode: string -> seq<Token>, decode: seq<Token> -> string)

  /** The embedding service's hard input limit, in tokens. */
  const MAX_TOKENS_PER_CHUNK: nat := 8191
  /** Configuration defaults for the chunk window. */
  const DEFAULT_CHUNK_SIZE: int := 1000
  const DEFAULT_CHUNK_OVERLAP: int := 200

  /** The token range [start, end) of one chunk. */
  datatype Span = Span(start: nat, end: nat)

  /** The chunk statistics. The early return for empty text carries no
      minimum or maximum key, which `None` records. */
  datatype Stats = Stats(totalTokens: nat, chunkCount: nat, avgChunkTokens: real,
                         minChunkTokens: Option<int>, maxChunkTokens: Option<int>)

  const EMPTY_TEXT_STATS := Stats(0, 0, 0.0, None, None)

  /** Window parameters under which the chunking loop advances: a stride
      `chunkSize - overlap` of at least one token. */
  predicate ValidWindow(chunkSize: int, overlap: int) {
    overlap < chunkSize
  }

  /** Where the window at cursor `i` ends: the end of the Python slice
      `tokens[i:min(i + chunkSize, n)]` over `n` tokens, whose bound may be
      negative (and then counts from the end) when `chunkSize` is not
      positive; a crossed slice is empty. */
  function ChunkEnd(i: nat, n: nat, cs: int): (r: nat)
    ensures i <= r && (i <= n ==> r <= n)
    ensures 0 < cs && i <= n ==> r == Min(i + cs, n)
  {
    var b := SliceBound(Min(i + cs, n), n);
    if b < i then i else b
  }

  /** The window at the cursor holds exactly the tokens of the source's slice. */
  lemma WindowSlice(tokens: seq<Token>, i: nat, cs: int)
    requires i <= |tokens|
    ensures tokens[i..ChunkEnd(i, |tokens|, cs)] == PySlice(tokens, i, Min(i + cs, |tokens|))
  {
  }

  /** The windows the chunking loop emits once its cursor is at `i`: the window
      at the cursor, then either the tail window (when the advanced cursor
      lands in the last `overlap` tokens) and a stop, or the windows from the
      advanced cursor. */
  function Windows(n: nat, cs: int, ov: int, i: nat): (w: seq<Span>)
    requires ValidWindow(cs, ov)
    decreases if i < n then n - i else 0
  {
    if i >= n then []
    else
      var next: nat := i + (cs - ov);
      var here := Span(i, ChunkEnd(i, n, cs));
      if n - ov <= next < n then [here, Span(next, n)]
      else [here] + Windows(n, cs, ov, next)
  }

  /** Every window is a range of tokens at or after the cursor and inside the
      input; with a positive `chunkSize` it is non-empty and holds at most
      `chunkSize` tokens. */
  lemma {:induction false} WindowsBounds(n: nat, cs: int, ov: int, i: nat)
    requires ValidWindow(cs, ov)
    ensures forall k :: 0 <= k < |Windows(n, cs, ov, i)| ==>
      var x := Windows(n, cs, ov, i)[k];
      i <= x.start < n && x.start <= x.end <= n && (0 < cs ==> x.start < x.end && x.end - x.start <= cs)
    decreases if i < n then n - i else 0
  {
    if i < n {
      var next := i + (cs - ov);
      if !(n - ov <= next < n) {
        WindowsBounds(n, cs, ov, next);
        var w := Windows(n, cs, ov, i);
        var rest := Windows(n, cs, ov, next);
        assert w == [w[0]] + rest;
        forall k | 1 <= k < |w|
          ensures i <= w[k].start < n && w[k].start <= w[k].end <= n && (0 < cs ==> w[k].start < w[k].end && w[k].end - w[k].start <= cs)
        {
          assert w[k] == rest[k - 1];
        }
      }
    }
  }

  /** All windows over `n` tokens. */
  function Spans(n: nat, cs: int, ov: int): (w: seq<Span>)
    requires ValidWindow(cs, ov)
    ensures forall k :: 0 <= k < |w| ==>
      w[k].start < n && w[k].start <= w[k].end <= n && (0 < cs ==> w[k].start < w[k].end && w[k].end - w[k].start <= cs)
  {
    WindowsBounds(n, cs, ov, 0);
    Windows(n, cs, ov, 0)
  }

  predicate Within(w: seq<Span>, n: nat) {
    forall k :: 0 <= k < |w| ==> w[k].start <= w[k].end <= n
  }

  /** Each window's tokens, decoded back into text. */
  function Decoded(tok: Tokenizer, tokens: seq<Token>, w: seq<Span>): seq<string>
    requires Within(w, |tokens|)
  {
    seq(|w|, k requires 0 <= k < |w| => tok.decode(tokens[w[k].start..w[k].end]))
  }

  /** Each window's token count. */
  function Counts(w: seq<Span>): seq<int> {
    seq(|w|, k requires 0 <= k < |w| => w[k].end - w[k].start)
  }

  function Sum(s: seq<int>): int {
    if s == [] then 0 else s[0] + Sum(s[1..])
  }

  function SeqMin(s: seq<int>): (m: int)
    requires s != []
    ensures m in s
    ensures forall x :: x in s ==> m <= x
  {
    if |s| == 1 then s[0]
    else
      var m := SeqMin(s[1..]);
      assert forall x :: x in s ==> x == s[0] || x in s[1..];
      Min(s[0], m)
  }

  function SeqMax(s: seq<int>): (m: int)
    requires s != []
    ensures m in s
    ensures forall x :: x in s ==> x <= m
  {
    if |s| == 1 then s[0]
    else
      var m := SeqMax(s[1..]);
      assert forall x :: x in s ==> x == s[0] || x in s[1..];
      Max(s[0], m)
  }

  /** The statistics computed after the loop. */
  function StatsOf(total: nat, counts: seq<int>): Stats {
    if counts == [] then Stats(total, 0, 0.0, Some(0), Some(0))
    else Stats(total, |counts|, Sum(counts) as real / |counts| as real,
               Some(SeqMin(counts)), Some(SeqMax(counts)))
  }

  /** What the chunker may be asked to do: a non-empty text needs window
      parameters (after the defaults) under which the loop advances. */
  predicate ChunkRequest(text: string, chunkSize: Option<int>, overlap: Option<int>) {
    text != [] ==> ValidWindow(OrDefault(chunkSize, DEFAULT_CHUNK_SIZE), OrDefault(overlap, DEFAULT_CHUNK_OVERLAP))
  }

  /** The chunks for `text`. */
  function ChunkList(tok: Tokenizer, text: string, chunkSize: Option<int>, overlap: Option<int>): seq<string>
    requires ChunkRequest(text, chunkSize, overlap)
  {
    if text == [] then []
    else
      var tokens := tok.encode(text);
      Decoded(tok, tokens, Spans(|tokens|, OrDefault(chunkSize, DEFAULT_CHUNK_SIZE), OrDefault(overlap, DEFAULT_CHUNK_OVERLAP)))
  }

  /** The statistics reported beside the chunks of `text`. */
  function ChunkStatsOf(tok: Tokenizer, text: string, chunkSize: Option<int>, overlap: Option<int>): Stats
    requires ChunkRequest(text, chunkSize, overlap)
  {
    if text == [] then EMPTY_TEXT_STATS
    else
      var n := |tok.encode(text)|;
      StatsOf(n, Counts(Spans(n, OrDefault(chunkSize, DEFAULT_CHUNK_SIZE), OrDefault(overlap, DEFAULT_CHUNK_OVERLAP))))
  }

  /** Splits `text` into overlapping token windows: a cursor starts at token 0
      and advances by `chunkSize - overlap`; each step decodes up to
      `chunkSize` tokens from the cursor, and once the advanced cursor falls
      within the last `overlap` tokens the remaining tokens are emitted as a
      final chunk and the loop stops. */
  method ChunkText(tok: Tokenizer, text: string, chunkSize: Option<int>, overlap: Option<int>)
    returns (chunks: seq<string>, stats: Stats)
    requires ChunkRequest(text, chunkSize, overlap)
    ensures chunks == ChunkList(tok, text, chunkSize, overlap)
    ensures stats == ChunkStatsOf(tok, text, chunkSize, overlap)
    ensures text == [] ==> chunks == [] && stats == EMPTY_TEXT_STATS
    ensures stats.chunkCount == |chunks|
  {
    if text == [] {
      return [], EMPTY_TEXT_STATS;
    }
    var cs := OrDefault(chunkSize, DEFAULT_CHUNK_SIZE);
    var ov := OrDefault(overlap, DEFAULT_CHUNK_OVERLAP);
    var tokens := tok.encode(text);
    var counts;
    chunks, counts := WindowLoop(tok, tokens, cs, ov);
    stats := StatsOf(|tokens|, counts);
  }

  /** The chunking loop itself: the decoded windows of `tokens` and their
      token counts, in order. */
  method WindowLoop(tok: Tokenizer, tokens: seq<Token>, cs: int, ov: int)
    returns (chunks: seq<string>, counts: seq<int>)
    requires ValidWindow(cs, ov)
    ensures Within(Spans(|tokens|, cs, ov), |tokens|)
    ensures chunks == Decoded(tok, tokens, Spans(|tokens|, cs, ov))
    ensures counts == Counts(Spans(|tokens|, cs, ov))
  {
    var total := |tokens|;
    chunks := [];
    counts := [];
    ghost var done: seq<Span> := [];
    ghost var goal := Spans(total, cs, ov);
    var i: nat := 0;
    while i < total
      invariant goal == done + Windows(total, cs, ov, i)
      invariant Agree(tok, tokens, done, chunks, counts)
      decreases total - i
    {
      WindowsStep(total, cs, ov, i);
      ghost var done0, rest := done, Windows(total, cs, ov, i);
      var chunkEnd := Min(i + cs, total);
      var chunkTokens := PySlice(tokens, i, chunkEnd);
      WindowSlice(tokens, i, cs);
      AgreeSnoc(tok, tokens, done, chunks, counts, Span(i, ChunkEnd(i, total, cs)));
      chunks := chunks + [tok.decode(chunkTokens)];
      counts := counts + [|chunkTokens|];
      done := done + [Span(i, ChunkEnd(i, total, cs))];
      i := i + (cs - ov);
      if total - ov <= i < total {
        var remaining := tokens[i..];
        assert remaining == tokens[i..total];
        AgreeSnoc(tok, tokens, done, chunks, counts, Span(i, total));
        chunks := chunks + [tok.decode(remaining)];
        counts := counts + [|remaining|];
        done := done + [Span(i, total)];
        assert rest == [Span(i - (cs - ov), ChunkEnd(i - (cs - ov), total, cs)), Span(i, total)];
        assert done == done0 + rest;
        break;
      }
      assert rest == [Span(i - (cs - ov), ChunkEnd(i - (cs - ov), total, cs))] + Windows(total, cs, ov, i);
      assert done0 + rest == done + Windows(total, cs, ov, i);
    }
    AgreeDecoded(tok, tokens, done, chunks, counts);
    assert done == goal;
  }

  /** `chunks` and `counts` hold the decoding and the token count of each of
      the windows `w`. */
  predicate Agree(tok: Tokenizer, tokens: seq<Token>, w: seq<Span>, chunks: seq<string>, counts: seq<int>) {
    |chunks| == |w| && |counts| == |w| && Within(w, |tokens|) &&
    forall k :: 0 <= k < |w| ==>
      chunks[k] == tok.decode(tokens[w[k].start..w[k].end]) && counts[k] == w[k].end - w[k].start
  }

  lemma AgreeSnoc(tok: Tokenizer, tokens: seq<Token>, w: seq<Span>, chunks: seq<string>, counts: seq<int>, x: Span)
    requires Agree(tok, tokens, w, chunks, counts) && x.start <= x.end <= |tokens|
    ensures Agree(tok, tokens, w + [x], chunks + [tok.decode(tokens[x.start..x.end])], counts + [|tokens[x.start..x.end]|])
  {
  }

  lemma AgreeDecoded(tok: Tokenizer, tokens: seq<Token>, w: seq<Span>, chunks: seq<string>, counts: seq<int>)
    requires Agree(tok, tokens, w, chunks, counts)
    ensures Within(w, |tokens|) && chunks == Decoded(tok, tokens, w) && counts == Counts(w)
  {
  }

  /** One step of the windows: the window at the cursor, then the tail window
      and a stop, or the windows from the advanced cursor. */
  lemma WindowsStep(n: nat, cs: int, ov: int, i: nat)
    requires ValidWindow(cs, ov) && i < n
    ensures var next := i + (cs - ov);
      Windows(n, cs, ov, i) ==
        if n - ov <= next < n then [Span(i, ChunkEnd(i, n, cs)), Span(next, n)]
        else [Span(i, ChunkEnd(i, n, cs))] + Windows(n, cs, ov, next)
  {
  }

  lemma MulStep(k: int, s: int)
    ensures k * s == (k - 1) * s + s
  {
  }

  /** Closed form of the window starts: the k-th window starts k strides
      after the cursor; there is a window exactly when the cursor is inside the
      input. */
  lemma {:induction false} WindowsClosedForm(n: nat, cs: int, ov: int, i: nat)
    requires ValidWindow(cs, ov)
    ensures var w := Windows(n, cs, ov, i);
      (i < n <==> |w| > 0) &&
      (forall k :: 0 <= k < |w| ==> w[k].start == i + k * (cs - ov))
    decreases if i < n then n - i else 0
  {
    if i < n {
      var s := cs - ov;
      var next := i + s;
      var w := Windows(n, cs, ov, i);
      if n - ov <= next < n {
        assert w == [Span(i, ChunkEnd(i, n, cs)), Span(next, n)];
        assert 1 * s == s;
      } else {
        WindowsClosedForm(n, cs, ov, next);
        var rest := Windows(n, cs, ov, next);
        assert w == [Span(i, ChunkEnd(i, n, cs))] + rest;
        forall k | 0 <= k < |w|
          ensures w[k].start == i + k * s
        {
          if k > 0 {
            assert w[k] == rest[k - 1];
            MulStep(k, s);
          } else {
            assert 0 * s == 0;
          }
        }
      }
    }
  }

  /** Every window ends where the source's slice from its start ends, and
      with a non-negative overlap the last window reaches the end of the
      input. */
  lemma {:induction false} WindowsEnds(n: nat, cs: int, ov: int, i: nat)
    requires ValidWindow(cs, ov)
    ensures forall k :: 0 <= k < |Windows(n, cs, ov, i)| ==>
      Windows(n, cs, ov, i)[k].end == ChunkEnd(Windows(n, cs, ov, i)[k].start, n, cs)
    ensures 0 <= ov && |Windows(n, cs, ov, i)| > 0 ==> Windows(n, cs, ov, i)[|Windows(n, cs, ov, i)| - 1].end == n
    decreases if i < n then n - i else 0
  {
    if i < n {
      var next := i + (cs - ov);
      var w := Windows(n, cs, ov, i);
      if !(n - ov <= next < n) {
        WindowsEnds(n, cs, ov, next);
        var rest := Windows(n, cs, ov, next);
        assert w == [w[0]] + rest;
        forall k | 1 <= k < |w|
          ensures w[k].end == ChunkEnd(w[k].start, n, cs)
        {
          assert w[k] == rest[k - 1];
        }
      }
    }
  }

  /** The loop's stopping rule: no window after the first and before the
      last starts inside the last `overlap` tokens, and the loop stops either
      because the cursor advanced past the last window is past the end or
      because the last window is the tail window. */
  lemma {:induction false} WindowsStopRule(n: nat, cs: int, ov: int, i: nat)
    requires ValidWindow(cs, ov)
    ensures var w := Windows(n, cs, ov, i);
      (forall k :: 1 <= k < |w| - 1 ==> w[k].start < n - ov) &&
      (|w| > 0 ==> n <= w[|w| - 1].start + (cs - ov) || (|w| >= 2 && n - ov <= w[|w| - 1].start))
    decreases if i < n then n - i else 0
  {
    if i < n {
      var next := i + (cs - ov);
      if !(n - ov <= next < n) {
        WindowsStopRule(n, cs, ov, next);
        var w := Windows(n, cs, ov, i);
        var rest := Windows(n, cs, ov, next);
        assert w == [w[0]] + rest;
        forall k | 1 <= k < |w| - 1
          ensures w[k].start < n - ov
        {
          assert w[k] == rest[k - 1];
        }
      }
    }
  }

  /** Token `t` lies inside one of the windows. */
  predicate Covers(w: seq<Span>, t: int) {
    exists k :: 0 <= k < |w| && w[k].start <= t < w[k].end
  }

  /** With a non-negative overlap every token at or after the cursor lies in
      some window. */
  lemma {:induction false} WindowsCover(n: nat, cs: int, ov: int, i: nat, t: int)
    requires ValidWindow(cs, ov) && 0 <= ov
    requires i <= t < n
    ensures Covers(Windows(n, cs, ov, i), t)
    decreases n - i
  {
    var w := Windows(n, cs, ov, i);
    var next := i + (cs - ov);
    if t < Min(i + cs, n) {
      assert w[0].start <= t < w[0].end;
    } else {
      WindowsCover(n, cs, ov, next, t);
      var rest := Windows(n, cs, ov, next);
      assert w == [w[0]] + rest;
      var k :| 0 <= k < |rest| && rest[k].start <= t < rest[k].end;
      assert w[k + 1] == rest[k];
    }
  }

  /** The chunks in terms of the token positions: with s = chunkSize - overlap
      (after the defaults), chunk k is the decoding of the slice
      tokens[k*s : min(k*s + chunkSize, total)]. */
  lemma ChunkAt(tok: Tokenizer, text: string, chunkSize: Option<int>, overlap: Option<int>, k: int)
    requires text != [] && ChunkRequest(text, chunkSize, overlap)
    requires 0 <= k < |ChunkList(tok, text, chunkSize, overlap)|
    ensures var cs := OrDefault(chunkSize, DEFAULT_CHUNK_SIZE);
      var s := cs - OrDefault(overlap, DEFAULT_CHUNK_OVERLAP);
      var tokens := tok.encode(text);
      0 <= k * s < |tokens| &&
      ChunkList(tok, text, chunkSize, overlap)[k] == tok.decode(PySlice(tokens, k * s, Min(k * s + cs, |tokens|)))
  {
    var cs := OrDefault(chunkSize, DEFAULT_CHUNK_SIZE);
    var ov := OrDefault(overlap, DEFAULT_CHUNK_OVERLAP);
    var tokens := tok.encode(text);
    WindowsClosedForm(|tokens|, cs, ov, 0);
    WindowsEnds(|tokens|, cs, ov, 0);
    var w := Spans(|tokens|, cs, ov);
    var x := w[k];
    assert x.start == k * (cs - ov);
    WindowSlice(tokens, x.start, cs);
  }

  /** With a non-negative overlap the first chunk starts at token 0, the last
      ends at the last token and every token lies inside some chunk. */
  lemma ChunksCoverTokens(tok: Tokenizer, text: string, chunkSize: Option<int>, overlap: Option<int>)
    requires text != [] && ChunkRequest(text, chunkSize, overlap)
    requires 0 <= OrDefault(overlap, DEFAULT_CHUNK_OVERLAP)
    ensures var w := Spans(|tok.encode(text)|, OrDefault(chunkSize, DEFAULT_CHUNK_SIZE), OrDefault(overlap, DEFAULT_CHUNK_OVERLAP));
      (|tok.encode(text)| > 0 ==> w[0].start == 0 && w[|w| - 1].end == |tok.encode(text)|) &&
      forall t :: 0 <= t < |tok.encode(text)| ==> Covers(w, t)
  {
    var cs := OrDefault(chunkSize, DEFAULT_CHUNK_SIZE);
    var ov := OrDefault(overlap, DEFAULT_CHUNK_OVERLAP);
    var n := |tok.encode(text)|;
    WindowsClosedForm(n, cs, ov, 0);
    WindowsEnds(n, cs, ov, 0);
    forall t | 0 <= t < n
      ensures Covers(Spans(n, cs, ov), t)
    {
      WindowsCover(n, cs, ov, 0, t);
    }
  }

  /** The tail rule. With s the stride and K the number of chunks, chunk k
      for 1 <= k < K - 1 starts before the last `overlap` tokens; the loop stops
      because K*s reaches the end or because the last chunk is the tail chunk
      (it starts within the last `overlap` tokens). The tail chunk is then the
      remaining tokens, and they are a suffix of the previous chunk's tokens. */
  lemma TailChunkRule(tok: Tokenizer, tokens: seq<Token>, cs: int, ov: int)
    requires ValidWindow(cs, ov)
    ensures var n := |tokens|;
      var s := cs - ov;
      var w := Spans(n, cs, ov);
      var K := |w|;
      (forall k :: 1 <= k < K - 1 ==> w[k].start < n - ov) &&
      (K > 0 ==> n <= w[K - 1].start + s || (K >= 2 && n - ov <= w[K - 1].start)) &&
      (K >= 2 && n - ov <= w[K - 1].start ==>
         w[K - 1].end == n && w[K - 2].end == n && w[K - 2].start < w[K - 1].start &&
         tokens[w[K - 2].start..w[K - 2].end][w[K - 1].start - w[K - 2].start..] == tokens[w[K - 1].start..])
  {
    var n := |tokens|;
    var s := cs - ov;
    WindowsClosedForm(n, cs, ov, 0);
    WindowsEnds(n, cs, ov, 0);
    WindowsStopRule(n, cs, ov, 0);
    var w := Spans(n, cs, ov);
    var K := |w|;
    if K >= 2 && n - ov <= w[K - 1].start {
      assert w[K - 1].start == 0 + (K - 1) * s;
      assert w[K - 2].start == 0 + (K - 2) * s;
      MulStep(K - 1, s);
    }
  }

  /** The worked example: 2500 tokens with the default window (1000, overlap
      200) give chunks of 1000, 1000, 900 and 100 tokens, the last being the
      tail chunk. */
  lemma DefaultWindowExample()
    ensures Counts(Spans(2500, 1000, 200)) == [1000, 1000, 900, 100]
  {
    assert Windows(2500, 1000, 200, 1600) == [Span(1600, 2500), Span(2400, 2500)];
    assert Windows(2500, 1000, 200, 800) == [Span(800, 1800), Span(1600, 2500), Span(2400, 2500)];
    assert Spans(2500, 1000, 200) == [Span(0, 1000), Span(800, 1800), Span(1600, 2500), Span(2400, 2500)];
  }

  /** The statistics: the count is the number of chunks, the total is the
      number of tokens the text encodes to, and the minimum and maximum chunk
      sizes are the extreme chunk token counts (both 0 without chunks);
      every chunk has between 1 and chunkSize tokens. The early return for the
      empty text carries neither a minimum nor a maximum. */
  lemma ChunkStats(tok: Tokenizer, text: string, chunkSize: Option<int>, overlap: Option<int>)
    requires ChunkRequest(text, chunkSize, overlap)
    ensures var chunks := ChunkList(tok, text, chunkSize, overlap);
      var stats := ChunkStatsOf(tok, text, chunkSize, overlap);
      stats.chunkCount == |chunks| &&
      (text == [] ==> stats == EMPTY_TEXT_STATS) &&
      (text != [] ==>
         var cs := OrDefault(chunkSize, DEFAULT_CHUNK_SIZE);
         var counts := Counts(Spans(|tok.encode(text)|, cs, OrDefault(overlap, DEFAULT_CHUNK_OVERLAP)));
         stats.totalTokens == |tok.encode(text)| &&
         (stats.chunkCount == 0 <==> stats.totalTokens == 0) &&
         (counts == [] ==> stats.minChunkTokens == Some(0) && stats.maxChunkTokens == Some(0)) &&
         (counts != [] ==>
            stats.minChunkTokens.Some? && stats.maxChunkTokens.Some? &&
            stats.minChunkTokens.value in counts && stats.maxChunkTokens.value in counts &&
            (forall c :: c in counts ==> stats.minChunkTokens.value <= c <= stats.maxChunkTokens.value) &&
            0 <= stats.minChunkTokens.value && stats.maxChunkTokens.value <= stats.totalTokens &&
            (0 < cs ==> 1 <= stats.minChunkTokens.value && stats.maxChunkTokens.value <= cs)))
  {
    if text != [] {
      var cs := OrDefault(chunkSize, DEFAULT_CHUNK_SIZE);
      var w := Spans(|tok.encode(text)|, cs, OrDefault(overlap, DEFAULT_CHUNK_OVERLAP));
      var counts := Counts(w);
      forall c | c in counts
        ensures 0 <= c <= |tok.encode(text)| && (0 < cs ==> 1 <= c <= cs)
      {
        var k :| 0 <= k < |counts| && counts[k] == c;
        assert c == w[k].end - w[k].start;
      }
    }
  }

  /** The per-chunk check: valid exactly when the chunk encodes to at most
      MAX_TOKENS_PER_CHUNK tokens, and then without a replacement; otherwise the
      replacement is the decoding of its first MAX_TOKENS_PER_CHUNK tokens. */
  function ValidateChunkLength(tok: Tokenizer, chunk: string): (r: (bool, Option<string>))
    ensures r.0 <==> |tok.encode(chunk)| <= MAX_TOKENS_PER_CHUNK
    ensures r.0 ==> r.1 == None
    ensures !r.0 ==> r.1 == Some(tok.decode(tok.encode(chunk)[..MAX_TOKENS_PER_CHUNK]))
  {
    var tokens := tok.encode(chunk);
    if |tokens| <= MAX_TOKENS_PER_CHUNK then (true, None)
    else (false, Some(tok.decode(tokens[..MAX_TOKENS_PER_CHUNK])))
  }

  /** What goes to the embedding service in place of `chunk`. */
  function PreparedChunk(tok: Tokenizer, chunk: string): (r: string)
    ensures |tok.encode(chunk)| <= MAX_TOKENS_PER_CHUNK ==> r == chunk
    ensures |tok.encode(chunk)| > MAX_TOKENS_PER_CHUNK ==> r == tok.decode(tok.encode(chunk)[..MAX_TOKENS_PER_CHUNK])
  {
    var (ok, truncated) := ValidateChunkLength(tok, chunk);
    if ok then chunk else truncated.value
  }

  function PreparedAll(tok: Tokenizer, chunks: seq<string>): seq<string> {
    seq(|chunks|, i requires 0 <= i < |chunks| => PreparedChunk(tok, chunks[i]))
  }

  /** Replaces every over-long chunk by its truncation, keeping the number and
      the order of the chunks. */
  method PrepareChunks(tok: Tokenizer, chunks: seq<string>) returns (validated: seq<string>)
    ensures |validated| == |chunks|
    ensures forall i :: 0 <= i < |chunks| ==>
      validated[i] == if |tok.encode(chunks[i])| <= MAX_TOKENS_PER_CHUNK then chunks[i]
                      else tok.decode(tok.encode(chunks[i])[..MAX_TOKENS_PER_CHUNK])
    ensures validated == PreparedAll(tok, chunks)
  {
    validated := [];
    for i := 0 to |chunks|
      invariant |validated| == i
      invariant forall j :: 0 <= j < i ==> validated[j] == PreparedChunk(tok, chunks[j])
    {
      var (isValid, truncated) := ValidateChunkLength(tok, chunks[i]);
      if isValid {
        validated := validated + [chunks[i]];
      } else if truncated.Some? {
        validated := validated + [truncated.value];
      }
    }
  }
}
