/** The upload endpoint of rag-backend/app/api/ingestion.py: check the
    filename, read the stored content, chunk and embed it, write one record
    per (chunk, vector) pair and commit, and turn whatever goes wrong into
    an HTTP status and detail. Saving and reading the file, JSON
    serialisation and the database's flush and commit failures are
    parameters. */
module Ingestion {
  import opened Common
  import opened Chunker
  import opened Embedder
  import opened Store

  const INVALID_FORMAT: string := "Invalid file format"
  const EMPTY_DOCUMENT: string := "Document appears to be empty"
  const SAVE_FAILED: string := "Failed to save document"
  const EXTRACT_FAILED: string := "Could not extract text from document"
  const EMBED_FAILED: string := "Failed to generate embeddings"
  const PROCESS_FAILED_PREFIX: string := "Failed to process document: "
  const DATABASE_ERROR_PREFIX: string := "Database error: "

  /** The created records, or an error status with its detail. */
  datatype UploadReply = Uploaded(records: seq<Record>) | Failed(status: int, detail: string)

  /** The filename check: present and with a "." somewhere in it. */
  predicate ValidFilename(name: string) {
    name != [] && '.' in name
  }

  /** The handler for unexpected exceptions: the lower-cased message is
      searched for "storage", "extract" and "embedding", in that order. */
  function ClassifyError(msg: string): (r: UploadReply)
    ensures r.Failed? && (r.status == 500 || r.status == 422)
  {
    var m := Lower(msg);
    if Contains(m, "storage") then Failed(500, SAVE_FAILED)
    else if Contains(m, "extract") then Failed(422, EXTRACT_FAILED)
    else if Contains(m, "embedding") then Failed(500, EMBED_FAILED)
    else Failed(500, PROCESS_FAILED_PREFIX + msg)
  }

  /** The classification is case-blind and keyed on the earliest keyword in
      the list: 422 exactly for "extract" without "storage"; the original
      message is echoed exactly when no keyword occurs. */
  lemma ClassifyRule(msg: string, other: string)
    ensures var r := ClassifyError(msg); var m := Lower(msg);
      (r.status == 422 <==> !Contains(m, "storage") && Contains(m, "extract")) &&
      (r.detail == SAVE_FAILED <==> Contains(m, "storage")) &&
      (r.detail == EMBED_FAILED <==>
         !Contains(m, "storage") && !Contains(m, "extract") && Contains(m, "embedding")) &&
      (!Contains(m, "storage") && !Contains(m, "extract") && !Contains(m, "embedding") ==>
         r.detail == PROCESS_FAILED_PREFIX + msg)
    ensures Lower(msg) == Lower(other) ==> ClassifyError(msg).status == ClassifyError(other).status
  {
    var m := Lower(msg);
    if !Contains(m, "storage") && !Contains(m, "extract") && !Contains(m, "embedding") {
      var r := ClassifyError(msg);
      assert r.detail[10] == 'p';
      assert r.detail != SAVE_FAILED by {
        assert SAVE_FAILED[10] == 's';
      }
      assert r.detail != EMBED_FAILED by {
        assert EMBED_FAILED[10] == 'g';
      }
    }
  }

  /** A substring containing a character that `s` lacks does not occur in `s`. */
  lemma {:induction false} AbsentChar(s: string, sub: string, c: char)
    requires c in sub && c !in s
    ensures !Contains(s, sub)
  {
  }

  /** A failed embedding batch surfaces as the NameError of the missing
      `HTTPException` import; its text holds none of the keywords, so the
      upload answers with the generic detail rather than "Failed to
      generate embeddings". */
  lemma BatchFailureDetail()
    ensures ClassifyError(NAME_ERROR) == Failed(500, PROCESS_FAILED_PREFIX + NAME_ERROR)
  {
    NameErrorLetters();
    WithoutKeywordLetters(NAME_ERROR);
  }

  lemma NameErrorLetters()
    ensures forall i :: 0 <= i < |NAME_ERROR| ==>
      NAME_ERROR[i] != 'g' && NAME_ERROR[i] != 'G' && NAME_ERROR[i] != 'r' && NAME_ERROR[i] != 'R'
  {
  }

  /** A message with no "g" and no "r" in either case contains none of the
      keywords, so it gets the generic detail. */
  lemma WithoutKeywordLetters(msg: string)
    requires forall i :: 0 <= i < |msg| ==> msg[i] != 'g' && msg[i] != 'G' && msg[i] != 'r' && msg[i] != 'R'
    ensures ClassifyError(msg) == Failed(500, PROCESS_FAILED_PREFIX + msg)
  {
    var m := Lower(msg);
    assert 'g' !in m && 'r' !in m;
    AbsentChar(m, "storage", 'g');
    AbsentChar(m, "extract", 'r');
    AbsentChar(m, "embedding", 'g');
  }

  /** `json.dumps` of a vector, with `str(embed)` as the fallback. */
  function Serialized(dumps: Vector -> Option<string>, repr: Vector -> string, v: Vector): string {
    if dumps(v).Some? then dumps(v).value else repr(v)
  }

  /** The records the loop over `zip(chunks, vectors)` creates, the first
      taking id `start`. */
  function NewRecords(filename: string, chunks: seq<string>, vectors: seq<Vector>,
                      dumps: Vector -> Option<string>, repr: Vector -> string, start: nat, now: int): (r: seq<Record>)
    ensures |r| == Min(|chunks|, |vectors|)
  {
    seq(Min(|chunks|, |vectors|), i requires 0 <= i < Min(|chunks|, |vectors|) =>
      Record(start + i, filename, i, chunks[i], Encoded(Serialized(dumps, repr, vectors[i])), now))
  }

  /** The first record position below `n`, from `i` on, whose flush fails. */
  function FirstFlushFailure(flushError: nat -> Option<string>, i: nat, n: nat): (r: Option<nat>)
    ensures r.Some? ==> i <= r.value < n && flushError(r.value).Some?
    ensures r.None? ==> forall j :: i <= j < n ==> flushError(j).None?
    decreases n - i
  {
    if i >= n then None
    else if flushError(i).Some? then Some(i)
    else FirstFlushFailure(flushError, i + 1, n)
  }

  /** How many ids the failed or successful storing of `n` records takes
      from the store's id sequence: the positions up to and including the
      first failing flush, or all `n`. */
  function IdsTaken(flushError: nat -> Option<string>, n: nat): (r: nat)
    ensures r <= n
    ensures FirstFlushFailure(flushError, 0, n).None? ==> r == n
    ensures FirstFlushFailure(flushError, 0, n).Some? ==> 0 < r && flushError(r - 1).Some?
  {
    var failure := FirstFlushFailure(flushError, 0, n);
    if failure.Some? then failure.value + 1 else n
  }

  /** What the upload answers, given the stored content (or the text of the
      exception that saving or reading it raised) and the store's next id. */
  function UploadSpec(svc: Service, tok: Tokenizer, dumps: Vector -> Option<string>, repr: Vector -> string,
                      flushError: nat -> Option<string>, commitError: Option<string>,
                      filename: string, stored: Result<string, string>, now: int, start: nat): UploadReply {
    if !ValidFilename(filename) then Failed(400, INVALID_FORMAT)
    else if stored.Err? then ClassifyError(stored.error)
    else if IsBlank(stored.value) then Failed(400, EMPTY_DOCUMENT)
    else
      var chunks := ChunkList(tok, stored.value, None, None);
      var result := EmbedSpec(svc, tok, chunks, None).result;
      if RaisedMessage(result).Some? then ClassifyError(RaisedMessage(result).value)
      else
        var n := Min(|chunks|, |result.vectors|);
        var failure := FirstFlushFailure(flushError, 0, n);
        if failure.Some? then Failed(500, DATABASE_ERROR_PREFIX + flushError(failure.value).value)
        else if commitError.Some? then Failed(500, DATABASE_ERROR_PREFIX + commitError.value)
        else Uploaded(NewRecords(filename, chunks, result.vectors, dumps, repr, start, now))
  }

  /** How many ids an upload takes from the store's id sequence: none when
      it fails before any record is added, otherwise as many as storing
      the records does. */
  function UploadIdsTaken(svc: Service, tok: Tokenizer, flushError: nat -> Option<string>,
                          filename: string, stored: Result<string, string>): nat {
    if !ValidFilename(filename) || stored.Err? || IsBlank(stored.value) then 0
    else
      var chunks := ChunkList(tok, stored.value, None, None);
      var result := EmbedSpec(svc, tok, chunks, None).result;
      if RaisedMessage(result).Some? then 0
      else IdsTaken(flushError, Min(|chunks|, |result.vectors|))
  }

  /** Uploads `filename`. On success the new records are committed after
      the old ones; on any failure the session is rolled back, so the
      records are as they were, and the id sequence keeps the ids it gave
      out. */
  method UploadDocument(svc: Service, tok: Tokenizer, utf8: seq<bv8> -> Option<string>,
                        dumps: Vector -> Option<string>, repr: Vector -> string,
                        flushError: nat -> Option<string>, commitError: Option<string>, db: DocumentStore,
                        filename: string, stored: Result<string, string>, now: int)
    returns (reply: UploadReply)
    requires db.Valid() && db.records == db.committed
    modifies db
    ensures reply == UploadSpec(svc, tok, dumps, repr, flushError, commitError, filename, stored, now, old(db.nextId))
    ensures db.Valid()
    ensures reply.Uploaded? ==>
      db.records == old(db.records) + reply.records && db.committed == db.records &&
      db.nextId == old(db.nextId) + |reply.records|
    ensures !reply.Uploaded? ==> db.records == old(db.records) && db.committed == old(db.committed)
    ensures db.nextId == old(db.nextId) + UploadIdsTaken(svc, tok, flushError, filename, stored)
  {
    if !ValidFilename(filename) {
      return Failed(400, INVALID_FORMAT);
    }
    if stored.Err? {
      db.Rollback();
      return ClassifyError(stored.error);
    }
    var content := stored.value;
    StripEmptyIffBlank(content);
    if content == [] || |Strip(content)| == 0 {
      return Failed(400, EMPTY_DOCUMENT);
    }
    var outcome := ProcessDocument(svc, tok, utf8, Some(Text(content)), None, None, None);
    var raised := RaisedMessage(outcome.embedded);
    if raised.Some? {
      db.Rollback();
      return ClassifyError(raised.value);
    }
    reply := StoreRecords(flushError, commitError, db, filename, outcome.chunks, outcome.embedded.vectors,
                          dumps, repr, now);
  }

  /** The database part: add and flush one record per (chunk, vector) pair
      with `chunk_id` its position, then commit; a failure rolls back the
      records, but not the ids already taken. */
  method StoreRecords(flushError: nat -> Option<string>, commitError: Option<string>, db: DocumentStore,
                      filename: string, chunks: seq<string>, vectors: seq<Vector>,
                      dumps: Vector -> Option<string>, repr: Vector -> string, now: int)
    returns (reply: UploadReply)
    requires db.Valid() && db.records == db.committed
    modifies db
    ensures var n := Min(|chunks|, |vectors|);
      var failure := FirstFlushFailure(flushError, 0, n);
      reply == (if failure.Some? then Failed(500, DATABASE_ERROR_PREFIX + flushError(failure.value).value)
                else if commitError.Some? then Failed(500, DATABASE_ERROR_PREFIX + commitError.value)
                else Uploaded(NewRecords(filename, chunks, vectors, dumps, repr, old(db.nextId), now)))
    ensures db.Valid()
    ensures reply.Uploaded? ==>
      db.records == old(db.records) + reply.records && db.committed == db.records &&
      db.nextId == old(db.nextId) + |reply.records|
    ensures !reply.Uploaded? ==> db.records == old(db.records) && db.committed == old(db.committed)
    ensures db.nextId == old(db.nextId) + IdsTaken(flushError, Min(|chunks|, |vectors|))
  {
    var n := Min(|chunks|, |vectors|);
    ghost var all := NewRecords(filename, chunks, vectors, dumps, repr, db.nextId, now);
    var responses: seq<Record> := [];
    var idx := 0;
    while idx < n
      invariant 0 <= idx <= n && db.Valid()
      invariant FirstFlushFailure(flushError, idx, n) == FirstFlushFailure(flushError, 0, n)
      invariant responses == all[..idx]
      invariant db.records == old(db.records) + responses && db.committed == old(db.committed)
      invariant db.nextId == old(db.nextId) + idx
    {
      var json := Serialized(dumps, repr, vectors[idx]);
      var rec := db.Add(filename, idx, chunks[idx], Encoded(json), now);
      if flushError(idx).Some? {
        db.Rollback();
        return Failed(500, DATABASE_ERROR_PREFIX + flushError(idx).value);
      }
      PrefixSnoc(all, idx);
      responses := responses + [rec];
      idx := idx + 1;
    }
    assert responses == all;
    if commitError.Some? {
      db.Rollback();
      return Failed(500, DATABASE_ERROR_PREFIX + commitError.value);
    }
    db.Commit();
    reply := Uploaded(responses);
  }

  /** The input checks come first: an invalid filename, and then blank
      content, decide the reply whatever the embedding service, the
      serialiser and the database would do. */
  lemma InputChecks(svc: Service, svc2: Service, tok: Tokenizer, dumps: Vector -> Option<string>, repr: Vector -> string,
                    flushError: nat -> Option<string>, flushError2: nat -> Option<string>,
                    commitError: Option<string>, commitError2: Option<string>,
                    filename: string, stored: Result<string, string>, now: int, start: nat)
    ensures !ValidFilename(filename) ==>
      UploadSpec(svc, tok, dumps, repr, flushError, commitError, filename, stored, now, start) == Failed(400, INVALID_FORMAT)
    ensures ValidFilename(filename) && stored.Ok? && IsBlank(stored.value) ==>
      UploadSpec(svc, tok, dumps, repr, flushError, commitError, filename, stored, now, start) == Failed(400, EMPTY_DOCUMENT)
    ensures !ValidFilename(filename) || (stored.Ok? && IsBlank(stored.value)) ==>
      UploadSpec(svc, tok, dumps, repr, flushError, commitError, filename, stored, now, start) ==
      UploadSpec(svc2, tok, dumps, repr, flushError2, commitError2, filename, stored, now, start)
  {
  }

  /** The created records: one per (chunk, vector) pair up to the shorter
      list, numbered 0..n-1 by `chunk_id` in chunk order with consecutive
      ids from the store's next id, each carrying the upload's filename,
      its chunk's text and its vector in serialised-string form. */
  lemma {:induction false} NewRecordsFacts(filename: string, chunks: seq<string>, vectors: seq<Vector>,
                                           dumps: Vector -> Option<string>, repr: Vector -> string, start: nat, now: int)
    ensures var rs := NewRecords(filename, chunks, vectors, dumps, repr, start, now);
      |rs| == Min(|chunks|, |vectors|) &&
      WithFilename(rs, filename) == rs &&
      UniqueIds(rs) && (forall x :: x in Ids(rs) ==> start <= x < start + |rs|) &&
      (forall i :: 0 <= i < |rs| ==>
         rs[i].chunkId == i && rs[i].chunkText == chunks[i] && rs[i].embedding.Encoded? &&
         (dumps(vectors[i]).Some? ==> rs[i].embedding.json == dumps(vectors[i]).value))
  {
    var rs := NewRecords(filename, chunks, vectors, dumps, repr, start, now);
    NewRecordsIds(rs, start);
    AllWithFilename(rs, filename);
  }

  lemma {:induction false} AllWithFilename(rs: seq<Record>, f: string)
    requires forall i :: 0 <= i < |rs| ==> rs[i].filename == f
    ensures WithFilename(rs, f) == rs
  {
    if rs != [] {
      AllWithFilename(rs[1..], f);
    }
  }

  lemma {:induction false} NewRecordsIds(rs: seq<Record>, start: nat)
    requires forall i :: 0 <= i < |rs| ==> rs[i].id == start + i
    ensures UniqueIds(rs) && (forall x :: x in Ids(rs) ==> start <= x < start + |rs|)
    decreases |rs|
  {
    if rs != [] {
      var t := rs[1..];
      assert forall i :: 0 <= i < |t| ==> t[i].id == (start + 1) + i by {
        forall i | 0 <= i < |t| ensures t[i].id == (start + 1) + i {
          assert t[i] == rs[i + 1];
        }
      }
      NewRecordsIds(t, start + 1);
    }
  }

  /** A successful upload returns exactly the created records, and a
      database failure is reported with its message after the rollback. */
  lemma StoreOutcomes(svc: Service, tok: Tokenizer, dumps: Vector -> Option<string>, repr: Vector -> string,
                      flushError: nat -> Option<string>, commitError: Option<string>,
                      filename: string, content: string, now: int, start: nat)
    requires ValidFilename(filename) && !IsBlank(content)
    ensures var chunks := ChunkList(tok, content, None, None);
      var result := EmbedSpec(svc, tok, chunks, None).result;
      var r := UploadSpec(svc, tok, dumps, repr, flushError, commitError, filename, Ok(content), now, start);
      (!result.Embedded? ==> r == ClassifyError(RaisedMessage(result).value)) &&
      (result.Embedded? ==>
         var n := Min(|chunks|, |result.vectors|);
         (r.Uploaded? <==> commitError.None? && forall j :: 0 <= j < n ==> flushError(j).None?) &&
         (r.Uploaded? ==> r.records == NewRecords(filename, chunks, result.vectors, dumps, repr, start, now)) &&
         (commitError.Some? ==> r.Failed? && r.status == 500))
  {
    var chunks := ChunkList(tok, content, None, None);
    var result := EmbedSpec(svc, tok, chunks, None).result;
    if result.Embedded? {
      var n := Min(|chunks|, |result.vectors|);
      var failure := FirstFlushFailure(flushError, 0, n);
      if failure.Some? {
        assert !(forall j :: 0 <= j < n ==> flushError(j).None?) by {
          assert flushError(failure.value).Some?;
        }
      }
    }
  }
}
