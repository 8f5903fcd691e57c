/** The search endpoint of rag-backend/app/api/query.py: embed the
    question, select candidate records, scan them for embeddings of the
    query's dimension (stopping early once enough are found), rank them by a
    similarity score, keep the top k, and ask a language model to answer
    from their text. The embedding service, JSON decoding, the similarity
    function and the language model are parameters. */
module Retrieval {
  import opened Common
  import opened Chunker
  import opened Embedder
  import opened Store
  import opened Sorting

  /** Without a document filter only this many records are fetched. */
  const CANDIDATE_LIMIT: nat := 500
  /** The scan never collects more than this many compatible candidates. */
  const MAX_VALID_DOCS: int := 100

  const MISMATCH_ANSWER: string :=
    "I couldn't generate an answer based on the selected documents. There appears to be an embedding dimension mismatch between your query and the documents."
  const FALLBACK_ANSWER: string :=
    "I found relevant information but couldn't generate a complete answer. Try asking a more specific question."
  const NO_EMBEDDINGS_DETAIL: string := "No document embeddings found with the given criteria"
  const NO_COMPATIBLE_DETAIL: string := "No compatible document embeddings found"
  const FAILURE_PREFIX: string := "Search + answer failed: "

  /** `json.loads` followed by taking the result as a vector: None where
      decoding fails or the value has no length. It applies to text only;
      a stored value that is already a list makes `json.loads` raise. */
  type Loads = string -> Option<Vector>

  function Parse(loads: Loads, e: StoredEmbedding): (r: Option<Vector>)
    ensures e.Native? ==> r.None?
  {
    match e
    case Encoded(json) => loads(json)
    case Native(_) => None
  }

  /** The records whose filename is one of `ids`, in store order. */
  function InFilenames(rs: seq<Record>, ids: seq<string>): (r: seq<Record>)
    ensures |r| <= |rs|
    ensures forall k :: 0 <= k < |r| ==> r[k].filename in ids
  {
    if rs == [] then []
    else (if rs[0].filename in ids then [rs[0]] else []) + InFilenames(rs[1..], ids)
  }

  /** A non-empty filter selects every record of the named documents, with
      no limit; otherwise the first CANDIDATE_LIMIT records are taken. */
  function Candidates(rs: seq<Record>, documentIds: Option<seq<string>>): seq<Record> {
    if documentIds.Some? && |documentIds.value| > 0 then InFilenames(rs, documentIds.value)
    else rs[..Min(CANDIDATE_LIMIT, |rs|)]
  }

  lemma {:induction false} InFilenamesExact(rs: seq<Record>, ids: seq<string>)
    ensures forall r :: r in rs && r.filename in ids ==> r in InFilenames(rs, ids)
    ensures forall r :: r in InFilenames(rs, ids) ==> r in rs
  {
    if rs != [] {
      InFilenamesExact(rs[1..], ids);
      var h := if rs[0].filename in ids then [rs[0]] else [];
      assert InFilenames(rs, ids) == h + InFilenames(rs[1..], ids);
      forall r | r in rs && r.filename in ids ensures r in InFilenames(rs, ids) {
        if r != rs[0] {
          var k :| 0 <= k < |rs| && rs[k] == r;
          assert rs[1..][k - 1] == r;
        }
      }
    }
  }

  /** The candidate rule: with a non-empty filter, exactly the records of
      the named documents; otherwise a prefix of at most CANDIDATE_LIMIT
      records. */
  lemma CandidateRule(rs: seq<Record>, documentIds: Option<seq<string>>)
    ensures documentIds.Some? && |documentIds.value| > 0 ==>
      forall r :: r in Candidates(rs, documentIds) <==> r in rs && r.filename in documentIds.value
    ensures !(documentIds.Some? && |documentIds.value| > 0) ==>
      Candidates(rs, documentIds) <= rs && |Candidates(rs, documentIds)| == Min(CANDIDATE_LIMIT, |rs|)
  {
    if documentIds.Some? && |documentIds.value| > 0 {
      InFilenamesExact(rs, documentIds.value);
    }
  }

  /** A record that parsed to a vector of the query's dimension. */
  datatype Candidate = Candidate(record: Record, vector: Vector)

  /** The compatible candidates among `cs`, in scan order. */
  function Compatible(cs: seq<Record>, loads: Loads, dim: nat): seq<Candidate> {
    if cs == [] then []
    else
      var prev := Compatible(cs[..|cs| - 1], loads, dim);
      var v := Parse(loads, cs[|cs| - 1].embedding);
      if v.Some? && |v.value| == dim then prev + [Candidate(cs[|cs| - 1], v.value)] else prev
  }

  /** How many of `cs` parsed to a vector of another dimension. */
  function Mismatched(cs: seq<Record>, loads: Loads, dim: nat): nat {
    if cs == [] then 0
    else
      var v := Parse(loads, cs[|cs| - 1].embedding);
      Mismatched(cs[..|cs| - 1], loads, dim) + (if v.Some? && |v.value| != dim then 1 else 0)
  }

  /** How many of `cs` did not parse. */
  function Unparsed(cs: seq<Record>, loads: Loads): nat {
    if cs == [] then 0
    else Unparsed(cs[..|cs| - 1], loads) + (if Parse(loads, cs[|cs| - 1].embedding).None? then 1 else 0)
  }

  /** Where the scan stops: the first position at which `cap` compatible
      candidates have been collected, or the end. */
  function StopFrom(cs: seq<Record>, i: nat, loads: Loads, dim: nat, cap: int): (r: nat)
    requires i <= |cs|
    ensures i <= r <= |cs|
    decreases |cs| - i
  {
    if i == |cs| || |Compatible(cs[..i], loads, dim)| >= cap then i
    else StopFrom(cs, i + 1, loads, dim, cap)
  }

  function StopIndex(cs: seq<Record>, loads: Loads, dim: nat, cap: int): (r: nat)
    ensures r <= |cs|
  {
    StopFrom(cs, 0, loads, dim, cap)
  }

  /** Scans the candidates in order: stop once `cap` compatible ones are
      collected; a candidate that does not parse is passed over without
      being counted; one of another dimension is passed over and counted. */
  method ScanCandidates(cs: seq<Record>, loads: Loads, dim: nat, cap: int)
    returns (valid: seq<Candidate>, skipped: nat)
    ensures valid == Compatible(cs[..StopIndex(cs, loads, dim, cap)], loads, dim)
    ensures skipped == Mismatched(cs[..StopIndex(cs, loads, dim, cap)], loads, dim)
  {
    valid, skipped := [], 0;
    var i := 0;
    assert cs[..0] == [];
    while i < |cs|
      invariant i <= |cs|
      invariant valid == Compatible(cs[..i], loads, dim) && skipped == Mismatched(cs[..i], loads, dim)
      invariant StopFrom(cs, i, loads, dim, cap) == StopIndex(cs, loads, dim, cap)
      decreases |cs| - i
    {
      if |valid| >= cap {
        break;
      }
      var doc := cs[i];
      assert cs[..i + 1][..i] == cs[..i] && cs[..i + 1][i] == doc;
      var parsed := Parse(loads, doc.embedding);
      if parsed.Some? {
        if |parsed.value| != dim {
          skipped := skipped + 1;
        } else {
          valid := valid + [Candidate(doc, parsed.value)];
        }
      }
      i := i + 1;
    }
  }

  /** Every compatible candidate is a record of `cs` that parsed to a vector
      of the query's dimension, and every such record is one. */
  lemma {:induction false} CompatibleExact(cs: seq<Record>, loads: Loads, dim: nat)
    ensures forall c :: c in Compatible(cs, loads, dim) ==>
      c.record in cs && Parse(loads, c.record.embedding) == Some(c.vector) && |c.vector| == dim
    ensures forall r :: r in cs && Parse(loads, r.embedding).Some? && |Parse(loads, r.embedding).value| == dim ==>
      Candidate(r, Parse(loads, r.embedding).value) in Compatible(cs, loads, dim)
  {
    if cs != [] {
      var p := cs[..|cs| - 1];
      CompatibleExact(p, loads, dim);
      assert cs == p + [cs[|cs| - 1]];
    }
  }

  /** A record whose embedding is stored as a list rather than as JSON
      text is neither compatible nor counted as a mismatch. */
  lemma {:induction false} NativeSkipped(cs: seq<Record>, loads: Loads, dim: nat)
    requires forall k :: 0 <= k < |cs| ==> cs[k].embedding.Native?
    ensures Compatible(cs, loads, dim) == [] && Mismatched(cs, loads, dim) == 0
  {
    if cs != [] {
      NativeSkipped(cs[..|cs| - 1], loads, dim);
    }
  }

  /** So a query whose candidates all hold list-form embeddings ends in the
      "no compatible embeddings" error. */
  lemma NativeOnlyQuery(svc: Service, tok: Tokenizer, loads: Loads, sim: Similarity, llm: Llm, rs: seq<Record>,
                        q: string, k: int, documentIds: Option<seq<string>>, includeChunks: bool)
    requires QueryVector(svc, tok, q).Ok? && Candidates(rs, documentIds) != []
    requires forall j :: 0 <= j < |Candidates(rs, documentIds)| ==> Candidates(rs, documentIds)[j].embedding.Native?
    ensures QuerySpec(svc, tok, loads, sim, llm, rs, q, k, documentIds, includeChunks) ==
            NotFoundFailure(NO_COMPATIBLE_DETAIL)
  {
    var cands := Candidates(rs, documentIds);
    var dim := |QueryVector(svc, tok, q).value|;
    var stop := StopIndex(cands, loads, dim, Min(k * 5, MAX_VALID_DOCS));
    NativeSkipped(cands[..stop], loads, dim);
  }

  /** Each scanned record is exactly one of compatible, of another
      dimension, or unparsable. */
  lemma {:induction false} ScanAccounting(cs: seq<Record>, loads: Loads, dim: nat)
    ensures |Compatible(cs, loads, dim)| + Mismatched(cs, loads, dim) + Unparsed(cs, loads) == |cs|
  {
    if cs != [] {
      ScanAccounting(cs[..|cs| - 1], loads, dim);
    }
  }

  lemma {:induction false} CompatibleGrowth(cs: seq<Record>, i: nat, loads: Loads, dim: nat)
    requires i < |cs|
    ensures |Compatible(cs[..i + 1], loads, dim)| <= |Compatible(cs[..i], loads, dim)| + 1
  {
    assert cs[..i + 1][..i] == cs[..i];
  }

  lemma {:induction false} StopFromFacts(cs: seq<Record>, i: nat, loads: Loads, dim: nat, cap: int)
    requires i <= |cs|
    requires |Compatible(cs[..i], loads, dim)| <= Max(cap, 0)
    ensures i <= StopFrom(cs, i, loads, dim, cap) <= |cs|
    ensures |Compatible(cs[..StopFrom(cs, i, loads, dim, cap)], loads, dim)| <= Max(cap, 0)
    ensures StopFrom(cs, i, loads, dim, cap) < |cs| ==>
      |Compatible(cs[..StopFrom(cs, i, loads, dim, cap)], loads, dim)| >= cap
    ensures forall j :: i <= j < StopFrom(cs, i, loads, dim, cap) ==> |Compatible(cs[..j], loads, dim)| < cap
    decreases |cs| - i
  {
    if !(i == |cs| || |Compatible(cs[..i], loads, dim)| >= cap) {
      CompatibleGrowth(cs, i, loads, dim);
      StopFromFacts(cs, i + 1, loads, dim, cap);
    }
  }

  /** The early cap: the scan stops at the first position where `cap`
      compatible candidates are in hand (or at the end), so it collects at
      most `cap` of them, and nothing after that position is examined or
      counted. */
  lemma ScanCap(cs: seq<Record>, loads: Loads, dim: nat, cap: int)
    ensures StopIndex(cs, loads, dim, cap) <= |cs|
    ensures |Compatible(cs[..StopIndex(cs, loads, dim, cap)], loads, dim)| <= Max(cap, 0)
    ensures StopIndex(cs, loads, dim, cap) < |cs| ==>
      |Compatible(cs[..StopIndex(cs, loads, dim, cap)], loads, dim)| == Max(cap, 0)
    ensures forall j :: 0 <= j < StopIndex(cs, loads, dim, cap) ==> |Compatible(cs[..j], loads, dim)| < cap
  {
    assert cs[..0] == [];
    StopFromFacts(cs, 0, loads, dim, cap);
  }

  /** A compatible candidate with its similarity to the query. */
  datatype Scored = Scored(score: real, record: Record)

  function ScoreKey(s: Scored): real {
    s.score
  }

  /** The similarity of two vectors, an abstract real-valued function. */
  type Similarity = (Vector, Vector) -> real

  function Scores(sim: Similarity, query: Vector, valid: seq<Candidate>): (r: seq<Scored>)
    ensures |r| == |valid|
  {
    seq(|valid|, i requires 0 <= i < |valid| => Scored(sim(query, valid[i].vector), valid[i].record))
  }

  /** The ranking: stable sort by score, highest first, cut to the first k
      as Python's `results[:k]` does. */
  function TopK(sim: Similarity, query: Vector, valid: seq<Candidate>, k: int): seq<Scored> {
    PySlice(SortDesc(Scores(sim, query, valid), ScoreKey), 0, k)
  }

  /** One result chunk in the response. */
  datatype SearchResult = SearchResult(id: nat, filename: string, chunkId: int, chunkText: string, score: real)

  function ResultChunks(top: seq<Scored>): (r: seq<SearchResult>)
    ensures |r| == |top|
  {
    seq(|top|, i requires 0 <= i < |top| =>
      SearchResult(top[i].record.id, top[i].record.filename, top[i].record.chunkId, top[i].record.chunkText, top[i].score))
  }

  function ContextText(top: seq<Scored>): string {
    Join("\n\n", seq(|top|, i requires 0 <= i < |top| => top[i].record.chunkText))
  }

  function Prompt(context: string, q: string): string {
    "Answer the following question based on the context below:\n\nContext:\n" + context + "\n\nQuestion:\n" + q
  }

  /** The language model: the reply text, or None when the call fails. */
  type Llm = string -> Option<string>

  function LlmAnswer(llm: Llm, prompt: string): string {
    if llm(prompt).Some? then Strip(llm(prompt).value) else FALLBACK_ANSWER
  }

  /** What the endpoint returns: an answer, with the chunks when they are
      included, or a 500 error with its detail. */
  datatype QueryResponse = Answer(answer: string, chunks: Option<seq<SearchResult>>) | ServerError(detail: string)

  /** The query's own vector, or the text of the exception that embedding it
      raised. */
  function QueryVector(svc: Service, tok: Tokenizer, q: string): Result<Vector, string> {
    var result := EmbedSpec(svc, tok, PreparedAll(tok, [q]), None).result;
    if !result.Embedded? then Err(RaisedMessage(result).value)
    else if result.vectors == [] then Err(INDEX_ERROR)
    else Ok(result.vectors[0])
  }

  /** The question is embedded as a single chunk (prepared twice, once
      here and once inside embedding), so it takes the one-request path:
      one call, no batch failure, and the query vector is the only vector
      returned. */
  lemma QueryEmbedding(svc: Service, tok: Tokenizer, q: string)
    ensures var run := EmbedSpec(svc, tok, PreparedAll(tok, [q]), None);
      var qv := QueryVector(svc, tok, q);
      (exists a :: 1 <= a <= MAX_RETRIES && run.trace == [Called(0, [PreparedChunk(tok, PreparedChunk(tok, q))], a)]) &&
      !run.result.BatchFailed? &&
      (qv.Ok? <==> run.result.Embedded?) &&
      (qv.Ok? ==> run.result.vectors == [qv.value]) &&
      (run.result.FastPathFailed? ==> qv == Err(run.result.error.message)) &&
      (run.result.EmptyResponse? ==> qv == Err(INDEX_ERROR))
  {
    assert PreparedAll(tok, [q]) == [PreparedChunk(tok, q)];
    SingleChunk(svc, tok, PreparedChunk(tok, q), None);
  }

  function NotFoundFailure(detail: string): QueryResponse {
    ServerError(FAILURE_PREFIX + "404: " + detail)
  }

  /** Everything after the candidates are scanned. */
  function Respond(sim: Similarity, llm: Llm, query: Vector, valid: seq<Candidate>, skipped: nat,
                   q: string, k: int, includeChunks: bool): QueryResponse {
    if valid == [] then
      if skipped > 0 then Answer(MISMATCH_ANSWER, Some([])) else NotFoundFailure(NO_COMPATIBLE_DETAIL)
    else
      var top := TopK(sim, query, valid, k);
      var answer := LlmAnswer(llm, Prompt(ContextText(top), q));
      Answer(answer, if includeChunks then Some(ResultChunks(top)) else None)
  }

  /** The whole of `_process_query`. */
  function QuerySpec(svc: Service, tok: Tokenizer, loads: Loads, sim: Similarity, llm: Llm, rs: seq<Record>,
                     q: string, k: int, documentIds: Option<seq<string>>, includeChunks: bool): QueryResponse {
    match QueryVector(svc, tok, q)
    case Err(m) => ServerError(FAILURE_PREFIX + m)
    case Ok(query) =>
      var cands := Candidates(rs, documentIds);
      if cands == [] then NotFoundFailure(NO_EMBEDDINGS_DETAIL)
      else
        var stop := StopIndex(cands, loads, |query|, Min(k * 5, MAX_VALID_DOCS));
        Respond(sim, llm, query, Compatible(cands[..stop], loads, |query|),
                Mismatched(cands[..stop], loads, |query|), q, k, includeChunks)
  }

  /** Answers question `q` from the records of the store. */
  method ProcessQuery(svc: Service, tok: Tokenizer, loads: Loads, sim: Similarity, llm: Llm, db: DocumentStore,
                      q: string, k: int, documentIds: Option<seq<string>>, includeChunks: bool)
    returns (r: QueryResponse)
    ensures r == QuerySpec(svc, tok, loads, sim, llm, db.records, q, k, documentIds, includeChunks)
  {
    var embeddingChunks := PrepareChunks(tok, [q]);
    var result, trace := GenerateEmbeddings(svc, tok, embeddingChunks, None);
    var raised := RaisedMessage(result);
    if raised.Some? {
      return ServerError(FAILURE_PREFIX + raised.value);
    }
    if result.vectors == [] {
      return ServerError(FAILURE_PREFIX + INDEX_ERROR);
    }
    var query := result.vectors[0];
    var cands := Candidates(db.records, documentIds);
    if cands == [] {
      return NotFoundFailure(NO_EMBEDDINGS_DETAIL);
    }
    var valid, skipped := ScanCandidates(cands, loads, |query|, Min(k * 5, MAX_VALID_DOCS));
    r := Respond(sim, llm, query, valid, skipped, q, k, includeChunks);
  }

  /** The ranked results are in non-increasing order of score, hold the
      best min(k, n) candidates, and keep the scan order among equal scores;
      every result chunk carries its record's fields. */
  lemma RankingFacts(sim: Similarity, query: Vector, valid: seq<Candidate>, k: int)
    ensures var top := TopK(sim, query, valid, k);
      var sorted := SortDesc(Scores(sim, query, valid), ScoreKey);
      multiset(sorted) == multiset(Scores(sim, query, valid)) &&
      SortedDesc(top, ScoreKey) &&
      top <= sorted &&
      (k >= 0 ==> |top| == Min(k, |valid|)) &&
      (forall v :: WithKey(sorted, ScoreKey, v) == WithKey(Scores(sim, query, valid), ScoreKey, v)) &&
      (forall i :: 0 <= i < |top| ==>
         ResultChunks(top)[i] == SearchResult(top[i].record.id, top[i].record.filename, top[i].record.chunkId,
                                              top[i].record.chunkText, top[i].score))
  {
    var s := Scores(sim, query, valid);
    var sorted := SortDesc(s, ScoreKey);
    SortDescCorrect(s, ScoreKey);
    forall v ensures WithKey(sorted, ScoreKey, v) == WithKey(s, ScoreKey, v) {
      SortDescStable(s, ScoreKey, v);
    }
    var top := TopK(sim, query, valid, k);
    assert top <= sorted;
    forall i, j | 0 <= i < j < |top| ensures ScoreKey(top[i]) >= ScoreKey(top[j]) {
      assert top[i] == sorted[i] && top[j] == sorted[j];
    }
  }

  /** No compatible candidate but some of another dimension: the fixed
      mismatch answer with an empty chunk list, whatever the language model
      would say. */
  lemma MismatchOutcome(sim: Similarity, llm1: Llm, llm2: Llm, query: Vector, skipped: nat,
                        q: string, k: int, includeChunks: bool)
    requires skipped > 0
    ensures Respond(sim, llm1, query, [], skipped, q, k, includeChunks) ==
            Respond(sim, llm2, query, [], skipped, q, k, includeChunks)
  {
  }

  /** The outcomes of a query before ranking: a failed query embedding
      and an empty candidate set end in a 500 error (the 404 is wrapped by
      the outer handler); otherwise the response is decided by the scan of
      the candidates against the query's dimension, with cap min(5k, 100). */
  lemma QueryStages(svc: Service, tok: Tokenizer, loads: Loads, sim: Similarity, llm: Llm, rs: seq<Record>,
                    q: string, k: int, documentIds: Option<seq<string>>, includeChunks: bool)
    ensures var r := QuerySpec(svc, tok, loads, sim, llm, rs, q, k, documentIds, includeChunks);
      var qv := QueryVector(svc, tok, q);
      var cands := Candidates(rs, documentIds);
      (qv.Err? ==> r == ServerError(FAILURE_PREFIX + qv.error)) &&
      (qv.Ok? && cands == [] ==>
         r == NotFoundFailure(NO_EMBEDDINGS_DETAIL)) &&
      (qv.Ok? && cands != [] ==>
         var stop := StopIndex(cands, loads, |qv.value|, Min(k * 5, MAX_VALID_DOCS));
         r == Respond(sim, llm, qv.value, Compatible(cands[..stop], loads, |qv.value|),
                      Mismatched(cands[..stop], loads, |qv.value|), q, k, includeChunks))
  {
  }

  /** The outcomes after the scan: a 500 error exactly when nothing is
      compatible and nothing was of another dimension; the fixed mismatch
      answer, with an empty chunk list, when nothing is compatible but
      something was of another dimension. */
  lemma RespondEmpty(sim: Similarity, llm: Llm, query: Vector, valid: seq<Candidate>, skipped: nat,
                     q: string, k: int, includeChunks: bool)
    ensures var r := Respond(sim, llm, query, valid, skipped, q, k, includeChunks);
      (valid == [] && skipped == 0 <==> r == NotFoundFailure(NO_COMPATIBLE_DETAIL)) &&
      (r.ServerError? <==> valid == [] && skipped == 0) &&
      (valid == [] && skipped > 0 ==> r == Answer(MISMATCH_ANSWER, Some([])))
  {
  }

  /** With compatible candidates the answer is the language model's reply,
      stripped, or the fallback text when the model fails, and the ranked
      chunks come back exactly when they are asked for. */
  lemma RespondAnswer(sim: Similarity, llm: Llm, query: Vector, valid: seq<Candidate>, skipped: nat,
                      q: string, k: int, includeChunks: bool)
    requires valid != []
    ensures var r := Respond(sim, llm, query, valid, skipped, q, k, includeChunks);
      var top := TopK(sim, query, valid, k);
      var prompt := Prompt(ContextText(top), q);
      r.Answer? && (r.chunks.Some? <==> includeChunks) &&
      (includeChunks ==> r.chunks == Some(ResultChunks(top))) &&
      (llm(prompt).Some? ==> r.answer == Strip(llm(prompt).value)) &&
      (llm(prompt).None? ==> r.answer == FALLBACK_ANSWER)
  {
  }
}
