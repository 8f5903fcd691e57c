/** The embedding driver of rag-backend/app/core/embeddings.py: the retry
    policy around one embedding request, the batching loop of
    `generate_embeddings` with its single-chunk fast path, and
    `process_document`, which chains decoding, chunking and embedding.
    The embedding service is an oracle that returns, for the n-th attempt of
    the c-th request, a response, a timeout or a raised error. */
module Embedder {
  import opened Common
  import opened Chunker

  /** At most this many attempts per embedding request. */
  const MAX_RETRIES: nat := 3
  /** The configured batch size, and the default the driver actually uses,
      `min(EMBEDDING_BATCH_SIZE, 5)`. */
  const EMBEDDING_BATCH_SIZE: int := 20
  const DEFAULT_BATCH_SIZE: int := Min(EMBEDDING_BATCH_SIZE, 5)

  /** The service errors the retry policy distinguishes; everything else is
      `OtherError`. */
  datatype ErrorKind = RateLimit | ApiTimeout | ApiConnection | OtherError

  datatype ApiError = ApiError(kind: ErrorKind, message: string)

  /** What one attempt at the service yields. `TimedOut` is the 10-second
      wait running out before the service answers. */
  datatype Attempt = Responded(data: seq<Vector>) | TimedOut | Raised(error: ApiError)

  /** The `attempt`-th try (from 1) of request number `call` for `batch`. */
  datatype Request = Request(call: nat, batch: seq<string>, attempt: nat)

  type Service = Request -> Attempt

  /** The message of the timeout error raised after `wait_for` gives up. The
      client library's `APITimeoutError` takes the request as its argument
      and always carries this text, with its full stop. */
  const TIMEOUT_MESSAGE := "Request timed out."

  /** The outcome of one attempt as the retry policy sees it: a timeout has
      become a retryable timeout error. */
  function Outcome(a: Attempt): (r: Result<seq<Vector>, ApiError>)
    ensures a.Responded? <==> r.Ok?
    ensures a.Responded? ==> r.value == a.data
    ensures a.TimedOut? ==> r == Err(ApiError(ApiTimeout, TIMEOUT_MESSAGE))
    ensures a.Raised? ==> r == Err(a.error)
  {
    match a
    case Responded(data) => Ok(data)
    case TimedOut => Err(ApiError(ApiTimeout, TIMEOUT_MESSAGE))
    case Raised(e) => Err(e)
  }

  /** Rate-limit, timeout and connection errors are retried; others are not. */
  predicate Retryable(e: ApiError) {
    e.kind != OtherError
  }

  /** The retry policy from attempt `attempt` on: stop on success, on an error
      that is not retryable, or after attempt MAX_RETRIES, re-raising the
      last error. The result comes with the number of the last attempt. */
  function RetryFrom(svc: Service, call: nat, batch: seq<string>, attempt: nat): (Result<seq<Vector>, ApiError>, nat)
    requires 1 <= attempt <= MAX_RETRIES
    decreases MAX_RETRIES - attempt
  {
    var r := Outcome(svc(Request(call, batch, attempt)));
    if r.Ok? || !Retryable(r.error) || attempt == MAX_RETRIES then (r, attempt)
    else RetryFrom(svc, call, batch, attempt + 1)
  }

  function Retry(svc: Service, call: nat, batch: seq<string>): (Result<seq<Vector>, ApiError>, nat) {
    RetryFrom(svc, call, batch, 1)
  }

  /** The retry policy, stated outright: between 1 and MAX_RETRIES attempts;
      every attempt before the last failed with a retryable error; the result
      is the last attempt's outcome, and that attempt succeeded, failed with an
      error that is not retryable, or was attempt MAX_RETRIES. */
  lemma {:induction false} RetryPolicy(svc: Service, call: nat, batch: seq<string>, attempt: nat)
    requires 1 <= attempt <= MAX_RETRIES
    ensures var (r, last) := RetryFrom(svc, call, batch, attempt);
      attempt <= last <= MAX_RETRIES &&
      r == Outcome(svc(Request(call, batch, last))) &&
      (r.Ok? || !Retryable(r.error) || last == MAX_RETRIES) &&
      forall t :: attempt <= t < last ==>
        Outcome(svc(Request(call, batch, t))).Err? && Retryable(Outcome(svc(Request(call, batch, t))).error)
    decreases MAX_RETRIES - attempt
  {
    var r := Outcome(svc(Request(call, batch, attempt)));
    if !(r.Ok? || !Retryable(r.error) || attempt == MAX_RETRIES) {
      RetryPolicy(svc, call, batch, attempt + 1);
    }
  }

  /** The attempt loop of the retry wrapper around one embedding request. */
  method CreateEmbeddingsWithRetry(svc: Service, call: nat, batch: seq<string>)
    returns (r: Result<seq<Vector>, ApiError>, attempts: nat)
    ensures (r, attempts) == Retry(svc, call, batch)
    ensures 1 <= attempts <= MAX_RETRIES
    ensures r == Outcome(svc(Request(call, batch, attempts)))
  {
    attempts := 1;
    r := Outcome(svc(Request(call, batch, attempts)));
    while !(r.Ok? || !Retryable(r.error) || attempts == MAX_RETRIES)
      invariant 1 <= attempts <= MAX_RETRIES
      invariant r == Outcome(svc(Request(call, batch, attempts)))
      invariant RetryFrom(svc, call, batch, attempts) == Retry(svc, call, batch)
      decreases MAX_RETRIES - attempts
    {
      attempts := attempts + 1;
      r := Outcome(svc(Request(call, batch, attempts)));
    }
    RetryPolicy(svc, call, batch, attempts);
  }

  /** Consecutive slices of `s` of `size` elements; the last may be shorter. */
  function Batches<T>(s: seq<T>, size: int): seq<seq<T>>
    requires size > 0
    decreases |s|
  {
    if s == [] then [] else [s[..Min(size, |s|)]] + Batches(s[Min(size, |s|)..], size)
  }

  function Flatten<T>(ss: seq<seq<T>>): seq<T> {
    if ss == [] then [] else ss[0] + Flatten(ss[1..])
  }

  /** The batches put back together give the input. */
  lemma {:induction false} BatchesFlatten<T>(s: seq<T>, size: int)
    requires size > 0
    ensures Flatten(Batches(s, size)) == s
    decreases |s|
  {
    if s != [] {
      var m := Min(size, |s|);
      BatchesFlatten(s[m..], size);
      assert Batches(s, size)[1..] == Batches(s[m..], size);
      assert s == s[..m] + s[m..];
    }
  }

  /** There are ceil(|s| / size) batches: just enough to hold every element. */
  lemma {:induction false} BatchesCount<T>(s: seq<T>, size: int)
    requires size > 0
    ensures |s| <= |Batches(s, size)| * size
    ensures s != [] ==> (|Batches(s, size)| - 1) * size < |s|
    decreases |s|
  {
    if s != [] {
      var m := Min(size, |s|);
      var k := |Batches(s[m..], size)|;
      BatchesCount(s[m..], size);
      assert |Batches(s, size)| == k + 1;
      assert (k + 1) * size == k * size + size;
      if s[m..] == [] {
        assert k == 0;
      }
    }
  }

  /** Every batch is non-empty and holds at most `size` elements; all but the
      last hold exactly `size`. */
  lemma {:induction false} BatchesSizes<T>(s: seq<T>, size: int)
    requires size > 0
    ensures forall j :: 0 <= j < |Batches(s, size)| ==> 0 < |Batches(s, size)[j]| <= size
    ensures forall j :: 0 <= j < |Batches(s, size)| - 1 ==> |Batches(s, size)[j]| == size
    decreases |s|
  {
    if s != [] {
      var m := Min(size, |s|);
      BatchesSizes(s[m..], size);
      var bt := Batches(s, size);
      assert bt[1..] == Batches(s[m..], size);
      if |s| <= size {
        assert s[m..] == [];
      }
    }
  }

  /** Where the driver stands: the vectors so far or the reason it stopped. */
  datatype EmbedResult =
    | Embedded(vectors: seq<Vector>)
    /** The single-chunk request failed; its error propagates unchanged. */
    | FastPathFailed(error: ApiError)
    /** The single-chunk response held no vector, so reading its first item
        fails with "list index out of range". */
    | EmptyResponse
    /** A batched request failed. The handler then raises `HTTPException`,
        which the module never imports, so what escapes is a NameError; the
        request's own error is kept as the cause. */
    | BatchFailed(cause: ApiError)

  const INDEX_ERROR: string := "list index out of range"
  const NAME_ERROR: string := "name 'HTTPException' is not defined"

  /** The text of the exception that escapes `generate_embeddings`: the
      service error itself, the index error of an empty single response, or
      the NameError of a batch failure; None when it returns vectors. */
  function RaisedMessage(r: EmbedResult): (m: Option<string>)
    ensures m.None? <==> r.Embedded?
    ensures r.FastPathFailed? ==> m == Some(r.error.message)
    ensures r.EmptyResponse? ==> m == Some(INDEX_ERROR)
    ensures r.BatchFailed? ==> m == Some(NAME_ERROR)
  {
    match r
    case Embedded(_) => None
    case FastPathFailed(e) => Some(e.message)
    case EmptyResponse => Some(INDEX_ERROR)
    case BatchFailed(_) => Some(NAME_ERROR)
  }

  /** What the driver did, in order: an embedding request (with the number of
      attempts it took) or the pause between batches. */
  datatype Event = Called(call: nat, batch: seq<string>, attempts: nat) | Paused

  datatype Run = Run(result: EmbedResult, trace: seq<Event>)

  /** The batching loop over the chunks `rest` that remain (request number
      `call`), with the vectors gathered so far in `acc`: request the next
      slice, stop on a failure, append every returned vector, pause when the
      batch was full and chunks remain after it, and go on with the rest. */
  function BatchLoop(svc: Service, rest: seq<string>, size: int, call: nat, acc: seq<Vector>): Run
    requires size > 0
    decreases |rest|
  {
    if rest == [] then Run(Embedded(acc), [])
    else
      var m := Min(size, |rest|);
      var batch := rest[..m];
      var (r, attempts) := Retry(svc, call, batch);
      if r.Err? then Run(BatchFailed(r.error), [Called(call, batch, attempts)])
      else
        var pause := if |batch| == size && size < |rest| then [Paused] else [];
        var next := BatchLoop(svc, rest[m..], size, call + 1, acc + r.value);
        Run(next.result, [Called(call, batch, attempts)] + pause + next.trace)
  }

  /** The batch size in force: a missing or zero argument selects the default. */
  function BatchSize(batchSize: Option<int>): int {
    OrDefault(batchSize, DEFAULT_BATCH_SIZE)
  }

  /** The whole of `generate_embeddings`. */
  function EmbedSpec(svc: Service, tok: Tokenizer, chunks: seq<string>, batchSize: Option<int>): Run {
    if chunks == [] then Run(Embedded([]), [])
    else
      var v := PreparedAll(tok, chunks);
      var size := BatchSize(batchSize);
      if |v| == 1 then
        var (r, attempts) := Retry(svc, 0, v);
        var result :=
          if r.Err? then FastPathFailed(r.error)
          else if r.value == [] then EmptyResponse
          else Embedded([r.value[0]]);
        Run(result, [Called(0, v, attempts)])
      else if size <= 0 then Run(Embedded([]), [])
      else BatchLoop(svc, v, size, 0, [])
  }

  function Prefixed(t: seq<Event>, run: Run): Run {
    Run(run.result, t + run.trace)
  }

  lemma PrefixedAppend(t: seq<Event>, h: seq<Event>, run: Run)
    ensures Prefixed(t, Run(run.result, h + run.trace)) == Prefixed(t + h, run)
  {
    assert t + (h + run.trace) == (t + h) + run.trace;
  }

  /** Embeds `chunks`: nothing for no chunks; one direct request for a single
      chunk; otherwise one request per batch of the validated chunks, in
      order, concatenating the returned vectors. */
  method GenerateEmbeddings(svc: Service, tok: Tokenizer, chunks: seq<string>, batchSize: Option<int>)
    returns (result: EmbedResult, trace: seq<Event>)
    ensures Run(result, trace) == EmbedSpec(svc, tok, chunks, batchSize)
  {
    if chunks == [] {
      return Embedded([]), [];
    }
    var size := BatchSize(batchSize);
    var validated := PrepareChunks(tok, chunks);
    if |validated| == 1 {
      var r, attempts := CreateEmbeddingsWithRetry(svc, 0, validated);
      trace := [Called(0, validated, attempts)];
      if r.Err? {
        return FastPathFailed(r.error), trace;
      }
      if r.value == [] {
        return EmptyResponse, trace;
      }
      return Embedded([r.value[0]]), trace;
    }
    if size <= 0 {
      return Embedded([]), [];
    }
    result, trace := BatchedEmbeddings(svc, validated, size);
  }

  /** The loop over the batches of the validated chunks. */
  method BatchedEmbeddings(svc: Service, validated: seq<string>, size: int)
    returns (result: EmbedResult, trace: seq<Event>)
    requires size > 0
    ensures Run(result, trace) == BatchLoop(svc, validated, size, 0, [])
  {
    ghost var goal := BatchLoop(svc, validated, size, 0, []);
    var embeddings: seq<Vector> := [];
    trace := [];
    var i: nat := 0;
    var call: nat := 0;
    assert validated[Min(i, |validated|)..] == validated;
    while i < |validated|
      invariant goal == Prefixed(trace, BatchLoop(svc, validated[Min(i, |validated|)..], size, call, embeddings))
      decreases |validated| - i
    {
      var batch := validated[i..Min(i + size, |validated|)];
      BatchLoopStep(svc, validated, i, size, call, embeddings);
      var r, attempts := CreateEmbeddingsWithRetry(svc, call, batch);
      if r.Err? {
        return BatchFailed(r.error), trace + [Called(call, batch, attempts)];
      }
      embeddings := embeddings + r.value;
      var step := [Called(call, batch, attempts)];
      if |batch| == size && i + size < |validated| {
        step := step + [Paused];
      }
      PrefixedAppend(trace, step, BatchLoop(svc, validated[Min(i + size, |validated|)..], size, call + 1, embeddings));
      trace := trace + step;
      i := i + size;
      call := call + 1;
    }
    assert validated[Min(i, |validated|)..] == [];
    return Embedded(embeddings), trace;
  }

  /** One step of the batching loop, in the loop's own terms: the batch at
      position `i` and the rest after it. */
  lemma BatchLoopStep(svc: Service, v: seq<string>, i: nat, size: int, call: nat, acc: seq<Vector>)
    requires size > 0 && i < |v|
    ensures var batch := v[i..Min(i + size, |v|)];
      var (r, attempts) := Retry(svc, call, batch);
      var pause := if |batch| == size && i + size < |v| then [Paused] else [];
      BatchLoop(svc, v[i..], size, call, acc) ==
        if r.Err? then Run(BatchFailed(r.error), [Called(call, batch, attempts)])
        else Prefixed([Called(call, batch, attempts)] + pause,
                      BatchLoop(svc, v[Min(i + size, |v|)..], size, call + 1, acc + r.value))
  {
    var rest := v[i..];
    var m := Min(size, |rest|);
    assert rest[..m] == v[i..Min(i + size, |v|)];
    assert rest[m..] == v[Min(i + size, |v|)..];
    var (r, attempts) := Retry(svc, call, rest[..m]);
    if r.Ok? {
      var pause := if m == size && size < |rest| then [Paused] else [];
      var next := BatchLoop(svc, rest[m..], size, call + 1, acc + r.value);
      assert [Called(call, rest[..m], attempts)] + pause + next.trace ==
             ([Called(call, rest[..m], attempts)] + pause) + next.trace;
    }
  }

  /** The batches the requests carried, in order. */
  function CalledBatches(t: seq<Event>): seq<seq<string>> {
    if t == [] then []
    else (if t[0].Called? then [t[0].batch] else []) + CalledBatches(t[1..])
  }

  /** The vectors the batch requests return, concatenated, for requests
      numbered from `call`. */
  function Outputs(svc: Service, bt: seq<seq<string>>, call: nat): seq<Vector>
    decreases |bt|
  {
    if bt == [] then []
    else
      var r := Retry(svc, call, bt[0]).0;
      (if r.Ok? then r.value else []) + Outputs(svc, bt[1..], call + 1)
  }

  lemma {:induction false} CalledBatchesAppend(a: seq<Event>, b: seq<Event>)
    ensures CalledBatches(a + b) == CalledBatches(a) + CalledBatches(b)
    decreases |a|
  {
    if a == [] {
      assert a + b == b;
    } else {
      assert (a + b)[0] == a[0];
      assert (a + b)[1..] == a[1..] + b;
      CalledBatchesAppend(a[1..], b);
    }
  }

  /** When the batching loop succeeds, the requests carried exactly the
      batches of the chunks, in order, and the vectors are those gathered
      before followed by what every request returned. */
  lemma {:induction false} BatchLoopEmbedded(svc: Service, rest: seq<string>, size: int, call: nat, acc: seq<Vector>)
    requires size > 0
    ensures var run := BatchLoop(svc, rest, size, call, acc);
      run.result.Embedded? || run.result.BatchFailed?
    ensures var run := BatchLoop(svc, rest, size, call, acc);
      run.result.Embedded? ==>
        CalledBatches(run.trace) == Batches(rest, size) &&
        run.result.vectors == acc + Outputs(svc, Batches(rest, size), call)
    decreases |rest|
  {
    if rest != [] {
      var m := Min(size, |rest|);
      var batch := rest[..m];
      var (r, attempts) := Retry(svc, call, batch);
      if r.Ok? {
        var pause := if |batch| == size && size < |rest| then [Paused] else [];
        var next := BatchLoop(svc, rest[m..], size, call + 1, acc + r.value);
        BatchLoopEmbedded(svc, rest[m..], size, call + 1, acc + r.value);
        var h := [Called(call, batch, attempts)] + pause;
        CalledBatchesAppend(h, next.trace);
        assert CalledBatches(h) == [batch];
        assert Batches(rest, size)[0] == batch;
        assert Batches(rest, size)[1..] == Batches(rest[m..], size);
      }
    }
  }

  /** When the batching loop fails, the requests carried a prefix of the
      batches of the chunks, and the last request is the one that failed. */
  lemma {:induction false} BatchLoopFailed(svc: Service, rest: seq<string>, size: int, call: nat, acc: seq<Vector>)
    requires size > 0
    ensures var run := BatchLoop(svc, rest, size, call, acc);
      run.result.BatchFailed? ==>
        run.trace != [] && run.trace[|run.trace| - 1].Called? &&
        CalledBatches(run.trace) <= Batches(rest, size) &&
        Retry(svc, run.trace[|run.trace| - 1].call, run.trace[|run.trace| - 1].batch).0 == Err(run.result.cause)
    decreases |rest|
  {
    if rest != [] {
      var m := Min(size, |rest|);
      var batch := rest[..m];
      var (r, attempts) := Retry(svc, call, batch);
      assert Batches(rest, size) == [batch] + Batches(rest[m..], size);
      if r.Ok? {
        var pause := if |batch| == size && size < |rest| then [Paused] else [];
        var next := BatchLoop(svc, rest[m..], size, call + 1, acc + r.value);
        BatchLoopFailed(svc, rest[m..], size, call + 1, acc + r.value);
        var h := [Called(call, batch, attempts)] + pause;
        CalledBatchesAppend(h, next.trace);
        assert CalledBatches(h) == [batch];
        if next.result.BatchFailed? {
          assert (h + next.trace)[|h + next.trace| - 1] == next.trace[|next.trace| - 1];
        }
      } else {
        assert CalledBatches([Called(call, batch, attempts)]) == [batch];
      }
    }
  }

  /** Every pause comes right after a request for a full batch and right
      before another request. */
  predicate PausesBetweenFullBatches(t: seq<Event>, size: int) {
    forall p :: 0 <= p < |t| && t[p] == Paused ==>
      0 < p < |t| - 1 && t[p - 1].Called? && |t[p - 1].batch| == size && t[p + 1].Called?
  }

  /** Every request but the last is followed by a pause. */
  predicate PauseAfterEachCall(t: seq<Event>) {
    forall p :: 0 <= p < |t| - 1 && t[p].Called? ==> t[p + 1] == Paused
  }

  /** The pause rule of the batching loop; when the loop succeeds, requests
      and pauses alternate. */
  lemma {:induction false} BatchLoopPauses(svc: Service, rest: seq<string>, size: int, call: nat, acc: seq<Vector>)
    requires size > 0
    ensures var t := BatchLoop(svc, rest, size, call, acc).trace;
      (t != [] ==> t[0].Called?) && PausesBetweenFullBatches(t, size)
    ensures var run := BatchLoop(svc, rest, size, call, acc);
      run.result.Embedded? ==> PauseAfterEachCall(run.trace)
    decreases |rest|
  {
    if rest != [] {
      var m := Min(size, |rest|);
      var batch := rest[..m];
      var (r, attempts) := Retry(svc, call, batch);
      if r.Ok? {
        var next := BatchLoop(svc, rest[m..], size, call + 1, acc + r.value);
        BatchLoopPauses(svc, rest[m..], size, call + 1, acc + r.value);
        var t := BatchLoop(svc, rest, size, call, acc).trace;
        if |batch| == size && size < |rest| {
          var nt := next.trace;
          assert rest[m..] != [];
          assert nt != [] && nt[0].Called?;
          assert t == [Called(call, batch, attempts), Paused] + nt;
          forall p | 0 <= p < |t| && t[p] == Paused
            ensures 0 < p < |t| - 1 && t[p - 1].Called? && |t[p - 1].batch| == size && t[p + 1].Called?
          {
            if p >= 2 {
              assert t[p] == nt[p - 2];
              if p >= 3 {
                assert t[p - 1] == nt[p - 3];
              }
              assert t[p + 1] == nt[p - 1];
            }
          }
          if next.result.Embedded? {
            forall p | 0 <= p < |t| - 1 && t[p].Called?
              ensures t[p + 1] == Paused
            {
              if p >= 2 {
                assert t[p] == nt[p - 2];
                assert t[p + 1] == nt[p - 1];
              }
            }
          }
        } else {
          assert rest[m..] == [];
          assert t == [Called(call, batch, attempts)];
        }
      }
    }
  }

  /** No chunks: no request and no vectors. */
  lemma EmptyInput(svc: Service, tok: Tokenizer, batchSize: Option<int>)
    ensures EmbedSpec(svc, tok, [], batchSize) == Run(Embedded([]), [])
  {
  }

  /** One chunk: a single request carrying the prepared chunk, and at most
      one vector. */
  lemma SingleChunk(svc: Service, tok: Tokenizer, chunk: string, batchSize: Option<int>)
    ensures var run := EmbedSpec(svc, tok, [chunk], batchSize);
      (exists a :: 1 <= a <= MAX_RETRIES && run.trace == [Called(0, [PreparedChunk(tok, chunk)], a)]) &&
      (run.result.Embedded? ==> |run.result.vectors| == 1) &&
      !run.result.BatchFailed?
  {
    var v := PreparedAll(tok, [chunk]);
    assert v == [PreparedChunk(tok, chunk)];
    RetryPolicy(svc, 0, v, 1);
    var (r, a) := Retry(svc, 0, v);
    assert EmbedSpec(svc, tok, [chunk], batchSize).trace == [Called(0, v, a)];
  }

  /** Two or more chunks with a positive batch size: when embedding succeeds
      the requests carry exactly the consecutive batches of the prepared
      chunks (ceil(n / size) of them, which put together give the prepared
      chunks) and the vectors are the concatenation of what each request
      returned, in order, with a pause between consecutive requests; when it
      fails, the requests carried a prefix of those batches and the last one
      failed. */
  lemma BatchedRun(svc: Service, tok: Tokenizer, chunks: seq<string>, batchSize: Option<int>)
    requires |chunks| >= 2 && BatchSize(batchSize) > 0
    ensures var run := EmbedSpec(svc, tok, chunks, batchSize);
      var v := PreparedAll(tok, chunks);
      var size := BatchSize(batchSize);
      (run.result.Embedded? || run.result.BatchFailed?) &&
      (run.result.Embedded? ==>
         CalledBatches(run.trace) == Batches(v, size) &&
         |chunks| <= |CalledBatches(run.trace)| * size &&
         (|CalledBatches(run.trace)| - 1) * size < |chunks| &&
         Flatten(CalledBatches(run.trace)) == v &&
         run.result.vectors == Outputs(svc, Batches(v, size), 0) &&
         PauseAfterEachCall(run.trace)) &&
      (run.result.BatchFailed? ==>
         CalledBatches(run.trace) <= Batches(v, size) &&
         run.trace != [] && run.trace[|run.trace| - 1].Called? &&
         Retry(svc, run.trace[|run.trace| - 1].call, run.trace[|run.trace| - 1].batch).0 == Err(run.result.cause)) &&
      PausesBetweenFullBatches(run.trace, size)
  {
    var v := PreparedAll(tok, chunks);
    var size := BatchSize(batchSize);
    BatchLoopEmbedded(svc, v, size, 0, []);
    BatchLoopFailed(svc, v, size, 0, []);
    BatchLoopPauses(svc, v, size, 0, []);
    BatchesCount(v, size);
    BatchesFlatten(v, size);
  }

  /** Two or more chunks with a negative batch size: the batch range is empty,
      so no request is made and no vector returned. */
  lemma NegativeBatchSize(svc: Service, tok: Tokenizer, chunks: seq<string>, batchSize: Option<int>)
    requires |chunks| >= 2 && BatchSize(batchSize) < 0
    ensures EmbedSpec(svc, tok, chunks, batchSize) == Run(Embedded([]), [])
  {
  }

  /** Document content: text, or bytes to be decoded. */
  datatype Content = Text(text: string) | Bytes(bytes: seq<bv8>)

  /** Latin-1 decoding: each byte is the character with that code. */
  function Latin1(b: seq<bv8>): (s: string)
    ensures |s| == |b|
    ensures forall i :: 0 <= i < |b| ==> s[i] as int == b[i] as int
  {
    seq(|b|, i requires 0 <= i < |b| => b[i] as char)
  }

  /** The text of the content: bytes are decoded as UTF-8 (`utf8` yields None
      where that decoding fails) and otherwise as Latin-1. */
  function ContentText(utf8: seq<bv8> -> Option<string>, content: Content): string {
    match content
    case Text(t) => t
    case Bytes(b) => if utf8(b).Some? then utf8(b).value else Latin1(b)
  }

  datatype DocOutcome =
    /** "Content cannot be None". */
    | ContentMissing
    | Processed(chunks: seq<string>, embedded: EmbedResult, stats: Stats, trace: seq<Event>)

  /** What the processor may be asked to do: content that is not blank is
      chunked, which needs a window that advances. */
  predicate DocumentRequest(utf8: seq<bv8> -> Option<string>, content: Option<Content>,
                            chunkSize: Option<int>, overlap: Option<int>) {
    content.Some? && !IsBlank(ContentText(utf8, content.value)) ==>
      ChunkRequest(ContentText(utf8, content.value), chunkSize, overlap)
  }

  /** Turns document content into chunks, their vectors and the chunk
      statistics: missing content is rejected, blank text yields nothing
      without any request, and anything else is chunked and embedded. */
  method ProcessDocument(svc: Service, tok: Tokenizer, utf8: seq<bv8> -> Option<string>, content: Option<Content>,
                         chunkSize: Option<int>, overlap: Option<int>, batchSize: Option<int>)
    returns (r: DocOutcome)
    requires DocumentRequest(utf8, content, chunkSize, overlap)
    ensures content.None? <==> r.ContentMissing?
    ensures content.Some? && IsBlank(ContentText(utf8, content.value)) ==>
      r == Processed([], Embedded([]), EMPTY_TEXT_STATS, [])
    ensures content.Some? && !IsBlank(ContentText(utf8, content.value)) ==>
      var text := ContentText(utf8, content.value);
      var chunks := ChunkList(tok, text, chunkSize, overlap);
      var run := EmbedSpec(svc, tok, chunks, batchSize);
      r == Processed(chunks, run.result, ChunkStatsOf(tok, text, chunkSize, overlap), run.trace)
  {
    if content.None? {
      return ContentMissing;
    }
    var text := ContentText(utf8, content.value);
    StripEmptyIffBlank(text);
    if text == [] || |Strip(text)| == 0 {
      return Processed([], Embedded([]), EMPTY_TEXT_STATS, []);
    }
    var chunks, stats := ChunkText(tok, text, chunkSize, overlap);
    var result, trace := GenerateEmbeddings(svc, tok, chunks, batchSize);
    return Processed(chunks, result, stats, trace);
  }
}
