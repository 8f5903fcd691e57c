/** The document listing and deletion endpoints of
    rag-backend/app/api/document_select.py. A document is the set of stored
    chunk records that share a filename. */
module DocumentSelect {
  import opened Common
  import opened Store
  import opened Sorting

  /** One row of the grouping query: a filename and its earliest creation
      time. */
  datatype GroupRow = GroupRow(filename: string, uploadTime: int)

  /** One entry of the listing; the filename doubles as the id. */
  datatype DocumentInfo = DocumentInfo(id: string, filename: string, uploadTime: int)

  /** `func.min(created_at)` over a non-empty group. */
  function MinCreated(rs: seq<Record>): int
    requires rs != []
  {
    if |rs| == 1 then rs[0].createdAt else Min(MinCreated(rs[..|rs| - 1]), rs[|rs| - 1].createdAt)
  }

  /** The minimum is attained by some record and bounds every record. */
  lemma {:induction false} MinCreatedIsMinimum(rs: seq<Record>)
    requires rs != []
    ensures exists k :: 0 <= k < |rs| && rs[k].createdAt == MinCreated(rs)
    ensures forall k :: 0 <= k < |rs| ==> MinCreated(rs) <= rs[k].createdAt
  {
    if |rs| > 1 {
      var p := rs[..|rs| - 1];
      MinCreatedIsMinimum(p);
      assert MinCreated(rs) == Min(MinCreated(p), rs[|rs| - 1].createdAt);
      var k :| 0 <= k < |p| && p[k].createdAt == MinCreated(p);
      var w := if rs[|rs| - 1].createdAt < MinCreated(p) then |rs| - 1 else k;
      assert rs[k] == p[k];
      assert 0 <= w < |rs| && rs[w].createdAt == MinCreated(rs);
      forall j | 0 <= j < |rs| - 1 ensures MinCreated(rs) <= rs[j].createdAt {
        assert rs[j] == p[j];
      }
    } else {
      assert rs[0].createdAt == MinCreated(rs);
    }
  }

  /** The distinct filenames, in the order of their first record. */
  function Filenames(rs: seq<Record>): seq<string> {
    if rs == [] then []
    else
      var names := Filenames(rs[..|rs| - 1]);
      var f := rs[|rs| - 1].filename;
      if f in names then names else names + [f]
  }

  predicate DistinctStrings(s: seq<string>) {
    forall i, j :: 0 <= i < j < |s| ==> s[i] != s[j]
  }

  /** Every filename of the store appears exactly once. */
  lemma {:induction false} FilenamesExact(rs: seq<Record>)
    ensures DistinctStrings(Filenames(rs))
    ensures forall f :: f in Filenames(rs) <==> HasFilename(rs, f)
  {
    if rs != [] {
      var p := rs[..|rs| - 1];
      FilenamesExact(p);
      forall f ensures HasFilename(rs, f) <==> HasFilename(p, f) || rs[|rs| - 1].filename == f {
        if HasFilename(p, f) {
          var k :| 0 <= k < |p| && p[k].filename == f;
          assert rs[k] == p[k];
        }
        if HasFilename(rs, f) && rs[|rs| - 1].filename != f {
          var k :| 0 <= k < |rs| && rs[k].filename == f;
          assert p[k] == rs[k];
        }
      }
    }
  }

  /** The earliest creation time of document `f`. */
  function EarliestUpload(rs: seq<Record>, f: string): int
    requires HasFilename(rs, f)
  {
    FilenamePresence(rs, f);
    MinCreated(WithFilename(rs, f))
  }

  /** The grouping of the records by filename, one row per document,
      before the ordering is applied. */
  function Groups(rs: seq<Record>): seq<GroupRow> {
    var names := Filenames(rs);
    FilenamesExact(rs);
    seq(|names|, i requires 0 <= i < |names| => GroupRow(names[i], EarliestUpload(rs, names[i])))
  }

  function UploadKey(g: GroupRow): real {
    g.uploadTime as real
  }

  /** The rows of the query: the groups in descending order of their
      earliest creation time. The database leaves the order of equal times
      open; here they keep the order of first appearance. */
  function QueryRows(rs: seq<Record>): seq<GroupRow> {
    SortDesc(Groups(rs), UploadKey)
  }

  function Format(rows: seq<GroupRow>): (list: seq<DocumentInfo>)
    ensures |list| == |rows|
  {
    seq(|rows|, i requires 0 <= i < |rows| => DocumentInfo(rows[i].filename, rows[i].filename, rows[i].uploadTime))
  }

  /** Lists the documents: runs the grouping query and formats each row. */
  method ListDocuments(db: DocumentStore) returns (list: seq<DocumentInfo>)
    ensures list == Format(QueryRows(db.records))
  {
    var rows := QueryRows(db.records);
    list := [];
    for i := 0 to |rows|
      invariant list == Format(rows[..i])
    {
      list := list + [DocumentInfo(rows[i].filename, rows[i].filename, rows[i].uploadTime)];
    }
    assert rows[..|rows|] == rows;
  }

  /** The groups hold every document once, each with its earliest time. */
  lemma GroupsExact(rs: seq<Record>)
    ensures forall i, j :: 0 <= i < j < |Groups(rs)| ==> Groups(rs)[i].filename != Groups(rs)[j].filename
    ensures forall f :: (exists i :: 0 <= i < |Groups(rs)| && Groups(rs)[i].filename == f) <==> HasFilename(rs, f)
    ensures forall i :: 0 <= i < |Groups(rs)| ==>
      HasFilename(rs, Groups(rs)[i].filename) && Groups(rs)[i].uploadTime == EarliestUpload(rs, Groups(rs)[i].filename)
  {
    FilenamesExact(rs);
    var names := Filenames(rs);
    forall f | HasFilename(rs, f) ensures exists i :: 0 <= i < |Groups(rs)| && Groups(rs)[i].filename == f {
      var i :| 0 <= i < |names| && names[i] == f;
      assert Groups(rs)[i].filename == f;
    }
  }

  /** `EarliestUpload` is the least creation time among the document's
      records, and some record of the document has it. */
  lemma EarliestUploadIsMinimum(rs: seq<Record>, f: string)
    requires HasFilename(rs, f)
    ensures exists k :: 0 <= k < |rs| && rs[k].filename == f && rs[k].createdAt == EarliestUpload(rs, f)
    ensures forall k :: 0 <= k < |rs| && rs[k].filename == f ==> EarliestUpload(rs, f) <= rs[k].createdAt
  {
    FilenamePresence(rs, f);
    var w := WithFilename(rs, f);
    MinCreatedIsMinimum(w);
    FilenameSplit(rs, f);
    var j :| 0 <= j < |w| && w[j].createdAt == MinCreated(w);
    assert w[j] in multiset(rs);
    var k :| 0 <= k < |rs| && rs[k] == w[j];
    forall k | 0 <= k < |rs| && rs[k].filename == f ensures EarliestUpload(rs, f) <= rs[k].createdAt {
      WithFilenameHas(rs, f, k);
    }
  }

  /** A record of document `f` is in that document's group. */
  lemma {:induction false} WithFilenameHas(rs: seq<Record>, f: string, k: nat)
    requires k < |rs| && rs[k].filename == f
    ensures exists j :: 0 <= j < |WithFilename(rs, f)| && WithFilename(rs, f)[j] == rs[k]
  {
    var h := if rs[0].filename == f then [rs[0]] else [];
    assert WithFilename(rs, f) == h + WithFilename(rs[1..], f);
    if k == 0 {
      assert WithFilename(rs, f)[0] == rs[0];
    } else {
      WithFilenameHas(rs[1..], f, k - 1);
      var j :| 0 <= j < |WithFilename(rs[1..], f)| && WithFilename(rs[1..], f)[j] == rs[1..][k - 1];
      assert WithFilename(rs, f)[|h| + j] == rs[k];
    }
  }

  predicate NoDup<T(==)>(s: seq<T>) {
    forall i, j :: 0 <= i < j < |s| ==> s[i] != s[j]
  }

  lemma {:induction false} NoDupCount<T>(s: seq<T>, x: T)
    requires NoDup(s)
    ensures multiset(s)[x] <= 1
  {
    if s != [] {
      var t := s[1..];
      assert NoDup(t) by {
        forall i, j | 0 <= i < j < |t| ensures t[i] != t[j] {
          assert t[i] == s[i + 1] && t[j] == s[j + 1];
        }
      }
      NoDupCount(t, x);
      assert s == [s[0]] + t;
      if s[0] == x {
        assert x !in t by {
          forall j | 0 <= j < |t| ensures t[j] != x {
            assert t[j] == s[j + 1];
          }
        }
      }
    }
  }

  lemma NoDupOfPermutation<T>(a: seq<T>, b: seq<T>)
    requires multiset(a) == multiset(b) && NoDup(b)
    ensures NoDup(a)
  {
    forall i, j | 0 <= i < j < |a| ensures a[i] != a[j] {
      if a[i] == a[j] {
        assert a == a[..j] + a[j..];
        assert a[i] in a[..j];
        assert a[j] in a[j..];
        assert multiset(a)[a[i]] == multiset(a[..j])[a[i]] + multiset(a[j..])[a[i]];
        NoDupCount(b, a[i]);
      }
    }
  }

  /** The query rows are the groups, reordered. */
  lemma QueryRowsAreGroups(rs: seq<Record>)
    ensures forall i :: 0 <= i < |QueryRows(rs)| ==> QueryRows(rs)[i] in Groups(rs)
    ensures forall i :: 0 <= i < |Groups(rs)| ==> Groups(rs)[i] in QueryRows(rs)
    ensures SortedDesc(QueryRows(rs), UploadKey)
  {
    var g, q := Groups(rs), QueryRows(rs);
    SortDescCorrect(g, UploadKey);
    forall i | 0 <= i < |q| ensures q[i] in g {
      assert q[i] in multiset(g);
    }
    forall i | 0 <= i < |g| ensures g[i] in q {
      assert g[i] in multiset(q);
    }
  }

  lemma QueryRowsDistinct(rs: seq<Record>)
    ensures forall i, j :: 0 <= i < j < |QueryRows(rs)| ==> QueryRows(rs)[i].filename != QueryRows(rs)[j].filename
  {
    var g, q := Groups(rs), QueryRows(rs);
    GroupsExact(rs);
    SortDescCorrect(g, UploadKey);
    assert NoDup(g);
    NoDupOfPermutation(q, g);
    QueryRowsAreGroups(rs);
    forall i, j | 0 <= i < j < |q| ensures q[i].filename != q[j].filename {
      var a :| 0 <= a < |g| && g[a] == q[i];
      var b :| 0 <= b < |g| && g[b] == q[j];
    }
  }

  /** Every document with records has a query row and every row is a
      document with records, carrying its earliest time. */
  lemma QueryRowsCover(rs: seq<Record>)
    ensures forall f :: (exists i :: 0 <= i < |QueryRows(rs)| && QueryRows(rs)[i].filename == f) <==> HasFilename(rs, f)
    ensures forall i :: 0 <= i < |QueryRows(rs)| ==>
      HasFilename(rs, QueryRows(rs)[i].filename) &&
      QueryRows(rs)[i].uploadTime == EarliestUpload(rs, QueryRows(rs)[i].filename)
  {
    var g, q := Groups(rs), QueryRows(rs);
    GroupsExact(rs);
    QueryRowsAreGroups(rs);
    forall f | HasFilename(rs, f) ensures exists i :: 0 <= i < |q| && q[i].filename == f {
      var i :| 0 <= i < |g| && g[i].filename == f;
      var j :| 0 <= j < |q| && q[j] == g[i];
      assert q[j].filename == f;
    }
    forall i | 0 <= i < |q|
      ensures HasFilename(rs, q[i].filename) && q[i].uploadTime == EarliestUpload(rs, q[i].filename)
    {
      var a :| 0 <= a < |g| && g[a] == q[i];
    }
  }

  /** The listing, stated outright: one entry per distinct filename of the
      store, its id being its filename and its time the earliest creation
      time of the document's records, in descending order of that time. */
  lemma ListingFacts(rs: seq<Record>)
    ensures var list := Format(QueryRows(rs));
      (forall i :: 0 <= i < |list| ==> list[i].id == list[i].filename) &&
      (forall i, j :: 0 <= i < j < |list| ==> list[i].filename != list[j].filename) &&
      (forall f :: (exists i :: 0 <= i < |list| && list[i].filename == f) <==> HasFilename(rs, f)) &&
      (forall i :: 0 <= i < |list| ==>
         HasFilename(rs, list[i].filename) && list[i].uploadTime == EarliestUpload(rs, list[i].filename)) &&
      (forall i, j :: 0 <= i < j < |list| ==> list[i].uploadTime >= list[j].uploadTime)
  {
    var q := QueryRows(rs);
    var list := Format(q);
    assert forall i :: 0 <= i < |list| ==> list[i] == DocumentInfo(q[i].filename, q[i].filename, q[i].uploadTime);
    QueryRowsAreGroups(rs);
    QueryRowsDistinct(rs);
    QueryRowsCover(rs);
    forall i, j | 0 <= i < j < |list| ensures list[i].uploadTime >= list[j].uploadTime {
      assert UploadKey(q[i]) >= UploadKey(q[j]);
    }
    forall f ensures (exists i :: 0 <= i < |list| && list[i].filename == f) <==> HasFilename(rs, f) {
      if HasFilename(rs, f) {
        var i :| 0 <= i < |q| && q[i].filename == f;
        assert list[i].filename == f;
      }
      if exists i :: 0 <= i < |list| && list[i].filename == f {
        var i :| 0 <= i < |list| && list[i].filename == f;
        assert q[i].filename == f;
      }
    }
  }

  /** The reply of the delete endpoint: 204 with no body, or 404. */
  datatype DeleteReply = NoContent | NotFound(detail: string)

  function NotFoundDetail(f: string): string {
    "Document '" + f + "' not found."
  }

  /** Deletes every record of document `f` and commits, or answers 404 and
      leaves the store as it was when there is none. The session starts with
      no pending changes. */
  method DeleteDocument(db: DocumentStore, f: string) returns (reply: DeleteReply)
    requires db.Valid() && db.records == db.committed
    modifies db
    ensures db.Valid()
    ensures !HasFilename(old(db.records), f) <==> reply == NotFound(NotFoundDetail(f))
    ensures HasFilename(old(db.records), f) <==> reply == NoContent
    ensures reply.NotFound? ==> db.records == old(db.records) && db.committed == old(db.committed)
    ensures reply == NoContent ==> db.records == WithoutFilename(old(db.records), f) && db.committed == db.records
    ensures db.nextId == old(db.nextId)
  {
    var found := WithFilename(db.records, f);
    FilenamePresence(db.records, f);
    if found == [] {
      db.Rollback();
      return NotFound(NotFoundDetail(f));
    }
    var count := db.DeleteFilename(f);
    db.Commit();
    return NoContent;
  }

  /** Deleting document `f` keeps exactly the records of the other
      documents. */
  lemma DeleteKeepsOthers(rs: seq<Record>, f: string)
    ensures forall r :: r in rs ==> (r in WithoutFilename(rs, f) <==> r.filename != f)
    ensures forall r :: r in WithoutFilename(rs, f) ==> r in rs
  {
    FilenameSplit(rs, f);
    forall r | r in rs && r.filename != f ensures r in WithoutFilename(rs, f) {
      assert r in multiset(rs);
    }
    forall r | r in WithoutFilename(rs, f) ensures r in rs {
      assert r in multiset(WithoutFilename(rs, f));
    }
  }
}
