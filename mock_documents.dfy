/** The list and delete endpoints of rag-backend/tests/mock_document_endpoint.py,
    which compute in memory what the production endpoints ask of the
    database: a dictionary keyed by filename holding the earliest creation
    time, and a record-by-record delete. */
module MockDocuments {
  import opened Common
  import opened Store
  import opened DocumentSelect

  /** How the earliest time of a document changes when one more record is
      scanned. */
  lemma EarliestUploadSnoc(p: seq<Record>, x: Record, g: string)
    requires HasFilename(p + [x], g)
    ensures EarliestUpload(p + [x], g) ==
      if x.filename != g then EarliestUpload(p, g)
      else if HasFilename(p, g) then Min(EarliestUpload(p, g), x.createdAt)
      else x.createdAt
  {
    HasFilenameSnoc(p, x, g);
    WithFilenameSnoc(p, x, g);
    FilenamePresence(p, g);
    var w := WithFilename(p, g);
    if x.filename == g {
      var w2 := w + [x];
      assert WithFilename(p + [x], g) == w2;
      if w != [] {
        assert w2[..|w2| - 1] == w && w2[|w2| - 1] == x;
        assert MinCreated(w2) == Min(MinCreated(w), x.createdAt);
      } else {
        assert w2 == [x];
      }
    } else {
      assert WithFilename(p + [x], g) == w;
    }
  }

  /** The dictionary after scanning the records `p`: its keys, in insertion
      order, are the filenames in order of first appearance, and each maps to
      the document's earliest creation time. */
  ghost predicate DictAgrees(p: seq<Record>, keys: seq<string>, times: map<string, int>) {
    keys == Filenames(p) &&
    (forall f :: f in times <==> f in keys) &&
    (forall f :: f in keys ==> HasFilename(p, f) && times[f] == EarliestUpload(p, f))
  }

  lemma DictStep(p: seq<Record>, x: Record, keys: seq<string>, times: map<string, int>)
    requires DictAgrees(p, keys, times)
    ensures var keys' := if x.filename in times then keys else keys + [x.filename];
      var times' := if x.filename !in times || x.createdAt < times[x.filename] then times[x.filename := x.createdAt] else times;
      DictAgrees(p + [x], keys', times')
  {
    var s := p + [x];
    assert s[..|s| - 1] == p;
    var keys' := if x.filename in times then keys else keys + [x.filename];
    var times' := if x.filename !in times || x.createdAt < times[x.filename] then times[x.filename := x.createdAt] else times;
    FilenamesExact(p);
    forall f | f in keys' ensures HasFilename(s, f) && times'[f] == EarliestUpload(s, f) {
      HasFilenameSnoc(p, x, f);
      EarliestUploadSnoc(p, x, f);
      if f != x.filename {
        assert f in keys && times'[f] == times[f];
      } else if x.filename in times {
        assert HasFilename(p, f) && times[f] == EarliestUpload(p, f);
      } else {
        assert !HasFilename(p, f);
      }
    }
  }

  /** Lists the documents from a dictionary keyed by filename. */
  method MockListDocuments(db: DocumentStore) returns (list: seq<DocumentInfo>)
    ensures list == Format(Groups(db.records))
  {
    var keys, times := EarliestTimes(db.records);
    list := seq(|keys|, i requires 0 <= i < |keys| => DocumentInfo(keys[i], keys[i], times[keys[i]]));
    DictListing(db.records, keys, times);
  }

  /** The scan that fills the dictionary from filename to earliest creation
      time: a new filename is inserted at the end of the key order, and a
      strictly earlier record replaces the stored time. The keys come back
      in insertion order. */
  method EarliestTimes(rs: seq<Record>) returns (keys: seq<string>, times: map<string, int>)
    ensures DictAgrees(rs, keys, times)
  {
    keys := [];
    times := map[];
    assert rs[..0] == [];
    for j := 0 to |rs|
      invariant DictAgrees(rs[..j], keys, times)
    {
      var doc := rs[j];
      DictStep(rs[..j], doc, keys, times);
      PrefixSnoc(rs, j);
      if doc.filename !in times || doc.createdAt < times[doc.filename] {
        if doc.filename !in times {
          keys := keys + [doc.filename];
        }
        times := times[doc.filename := doc.createdAt];
      }
    }
    assert rs[..|rs|] == rs;
  }

  lemma DictListing(rs: seq<Record>, keys: seq<string>, times: map<string, int>)
    requires DictAgrees(rs, keys, times)
    ensures seq(|keys|, i requires 0 <= i < |keys| => DocumentInfo(keys[i], keys[i], times[keys[i]])) == Format(Groups(rs))
  {
  }

  /** The two listings hold the same entries; the production one orders
      them by time and the in-memory one by first appearance. */
  lemma ListingsAgree(rs: seq<Record>)
    ensures |Format(Groups(rs))| == |Format(QueryRows(rs))|
    ensures forall e :: e in Format(Groups(rs)) <==> e in Format(QueryRows(rs))
  {
    var g, q := Groups(rs), QueryRows(rs);
    QueryRowsAreGroups(rs);
    Sorting.SortDescCorrect(g, UploadKey);
    assert |g| == |multiset(g)| == |multiset(q)| == |q|;
    FormatSubset(g, q);
    FormatSubset(q, g);
  }

  /** Formatting rows drawn from `b` gives entries of `b`'s listing. */
  lemma FormatSubset(a: seq<GroupRow>, b: seq<GroupRow>)
    requires forall i :: 0 <= i < |a| ==> a[i] in b
    ensures forall e :: e in Format(a) ==> e in Format(b)
  {
    forall e | e in Format(a) ensures e in Format(b) {
      var i :| 0 <= i < |a| && Format(a)[i] == e;
      var j :| 0 <= j < |b| && b[j] == a[i];
      assert Format(b)[j] == e;
    }
  }

  /** Dropping the ids of the first `j` records, then the next one. */
  lemma DeleteStep(start: seq<Record>, docs: seq<Record>, j: nat)
    requires j <= |docs|
    ensures j == 0 ==> DropIds(start, Ids(docs[..j])) == start
    ensures j == |docs| ==> docs[..j] == docs
    ensures j < |docs| ==> DropIds(DropIds(start, Ids(docs[..j])), {docs[j].id}) == DropIds(start, Ids(docs[..j + 1]))
  {
    if j == 0 {
      assert Ids(docs[..0]) == {};
      DropNoIds(start);
    }
    if j < |docs| {
      DropIdsTwice(start, Ids(docs[..j]), {docs[j].id});
      assert docs[..j + 1] == docs[..j] + [docs[j]];
      IdsAppend(docs[..j], [docs[j]]);
      assert Ids([docs[j]]) == {docs[j].id};
    }
  }

  /** Deletes the records of document `f` one at a time, then commits; 404
      when there is none. Ends in the same state as the bulk delete. */
  method MockDeleteDocument(db: DocumentStore, f: string) returns (reply: DeleteReply)
    requires db.Valid() && db.records == db.committed
    modifies db
    ensures db.Valid()
    ensures !HasFilename(old(db.records), f) <==> reply == NotFound(NotFoundDetail(f))
    ensures HasFilename(old(db.records), f) <==> reply == NoContent
    ensures reply.NotFound? ==> db.records == old(db.records) && db.committed == old(db.committed)
    ensures reply == NoContent ==> db.records == WithoutFilename(old(db.records), f) && db.committed == db.records
    ensures db.nextId == old(db.nextId)
  {
    var docs := WithFilename(db.records, f);
    FilenamePresence(db.records, f);
    if docs == [] {
      db.Rollback();
      return NotFound(NotFoundDetail(f));
    }
    ghost var start := db.records;
    DeleteStep(start, docs, 0);
    for j := 0 to |docs|
      invariant db.Valid()
      invariant db.records == DropIds(start, Ids(docs[..j]))
      invariant db.nextId == old(db.nextId)
    {
      DeleteStep(start, docs, j);
      db.DeleteRecord(docs[j].id);
    }
    DeleteStep(start, docs, |docs|);
    IdsOfDocument(start, f);
    DropDocumentIds(start, f, Ids(docs));
    db.Commit();
    return NoContent;
  }
}
