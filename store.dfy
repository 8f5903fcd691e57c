/** The `document_embeddings` table of rag-backend/app/core/db.py as seen
    through one database session: the records the session sees, the records
    the database holds (what was committed), and the id sequence behind the
    integer primary key. */
module Store {
  import opened Common

  /** The `embedding` column holds JSON. Records written by the ingestion
      endpoint hold the JSON text of the vector; a record may also hold an
      already decoded list of numbers. */
  datatype StoredEmbedding = Encoded(json: string) | Native(values: Vector)

  /** One row. `createdAt` is the server-side creation time, as an integer
      clock value. */
  datatype Record = Record(id: nat, filename: string, chunkId: int, chunkText: string,
                           embedding: StoredEmbedding, createdAt: int)

  /** The records of document `f`, in store order. */
  function WithFilename(rs: seq<Record>, f: string): (r: seq<Record>)
    ensures |r| <= |rs|
    ensures forall k :: 0 <= k < |r| ==> r[k].filename == f
  {
    if rs == [] then []
    else (if rs[0].filename == f then [rs[0]] else []) + WithFilename(rs[1..], f)
  }

  /** The records of every document but `f`, in store order. */
  function WithoutFilename(rs: seq<Record>, f: string): (r: seq<Record>)
    ensures |r| <= |rs|
    ensures forall k :: 0 <= k < |r| ==> r[k].filename != f
  {
    if rs == [] then []
    else (if rs[0].filename != f then [rs[0]] else []) + WithoutFilename(rs[1..], f)
  }

  predicate HasFilename(rs: seq<Record>, f: string) {
    exists k :: 0 <= k < |rs| && rs[k].filename == f
  }

  /** Splitting by filename loses no record and invents none: the two parts
      together are exactly the store. */
  lemma {:induction false} FilenameSplit(rs: seq<Record>, f: string)
    ensures multiset(WithFilename(rs, f)) + multiset(WithoutFilename(rs, f)) == multiset(rs)
  {
    if rs != [] {
      var t := rs[1..];
      FilenameSplit(t, f);
      var a := if rs[0].filename == f then [rs[0]] else [];
      var b := if rs[0].filename != f then [rs[0]] else [];
      assert WithFilename(rs, f) == a + WithFilename(t, f);
      assert WithoutFilename(rs, f) == b + WithoutFilename(t, f);
      assert multiset(a) + multiset(b) == multiset{rs[0]};
      assert rs == [rs[0]] + t;
    }
  }

  /** A document has records exactly when some record carries its name, and
      removing a document that has none changes nothing. */
  lemma {:induction false} FilenamePresence(rs: seq<Record>, f: string)
    ensures WithFilename(rs, f) == [] <==> !HasFilename(rs, f)
    ensures !HasFilename(rs, f) ==> WithoutFilename(rs, f) == rs
  {
    if rs != [] {
      var t := rs[1..];
      FilenamePresence(t, f);
      if HasFilename(t, f) {
        var k :| 0 <= k < |t| && t[k].filename == f;
        assert rs[k + 1].filename == f;
      }
      if !HasFilename(rs, f) {
        assert rs[0].filename != f;
        assert !HasFilename(t, f) by {
          forall k | 0 <= k < |t| ensures t[k].filename != f {
            assert t[k] == rs[k + 1];
          }
        }
        assert rs == [rs[0]] + t;
      }
    }
  }

  lemma {:induction false} WithFilenameSnoc(p: seq<Record>, x: Record, f: string)
    ensures WithFilename(p + [x], f) == WithFilename(p, f) + (if x.filename == f then [x] else [])
  {
    if p == [] {
      assert p + [x] == [x];
    } else {
      assert (p + [x])[0] == p[0];
      assert (p + [x])[1..] == p[1..] + [x];
      WithFilenameSnoc(p[1..], x, f);
    }
  }

  lemma HasFilenameSnoc(p: seq<Record>, x: Record, f: string)
    ensures HasFilename(p + [x], f) <==> HasFilename(p, f) || x.filename == f
  {
    var s := p + [x];
    if HasFilename(p, f) {
      var k :| 0 <= k < |p| && p[k].filename == f;
      assert s[k] == p[k];
    }
    if x.filename == f {
      assert s[|p|] == x;
    }
    if HasFilename(s, f) && x.filename != f {
      var k :| 0 <= k < |s| && s[k].filename == f;
      assert p[k] == s[k];
    }
  }

  function Ids(rs: seq<Record>): set<nat> {
    if rs == [] then {} else {rs[0].id} + Ids(rs[1..])
  }

  predicate UniqueIds(rs: seq<Record>) {
    rs == [] || (rs[0].id !in Ids(rs[1..]) && UniqueIds(rs[1..]))
  }

  /** The store without the records whose id is in `ids`. */
  function DropIds(rs: seq<Record>, ids: set<nat>): (r: seq<Record>)
    ensures |r| <= |rs|
    ensures forall k :: 0 <= k < |r| ==> r[k].id !in ids
  {
    if rs == [] then []
    else (if rs[0].id !in ids then [rs[0]] else []) + DropIds(rs[1..], ids)
  }

  lemma {:induction false} DropNoIds(rs: seq<Record>)
    ensures DropIds(rs, {}) == rs
  {
    if rs != [] {
      DropNoIds(rs[1..]);
      assert rs == [rs[0]] + rs[1..];
    }
  }

  /** Dropping ids one after the other is dropping them all at once. */
  lemma {:induction false} DropIdsTwice(rs: seq<Record>, a: set<nat>, b: set<nat>)
    ensures DropIds(DropIds(rs, a), b) == DropIds(rs, a + b)
  {
    if rs != [] {
      DropIdsTwice(rs[1..], a, b);
      var h := if rs[0].id !in a then [rs[0]] else [];
      DropIdsAppend(h, DropIds(rs[1..], a), b);
    }
  }

  lemma {:induction false} DropIdsAppend(x: seq<Record>, y: seq<Record>, ids: set<nat>)
    ensures DropIds(x + y, ids) == DropIds(x, ids) + DropIds(y, ids)
  {
    if x == [] {
      assert x + y == y;
    } else {
      assert (x + y)[0] == x[0];
      assert (x + y)[1..] == x[1..] + y;
      DropIdsAppend(x[1..], y, ids);
    }
  }

  /** With unique ids, dropping the ids of a document's records, and any ids
      no record has, removes exactly that document. */
  lemma {:induction false} DropDocumentIds(rs: seq<Record>, f: string, ids: set<nat>)
    requires UniqueIds(rs)
    requires ids * Ids(rs) == Ids(WithFilename(rs, f))
    ensures DropIds(rs, ids) == WithoutFilename(rs, f)
  {
    if rs != [] {
      var r, t := rs[0], rs[1..];
      var w := WithFilename(t, f);
      var h := if r.filename == f then [r] else [];
      IdsOfDocument(t, f);
      assert WithFilename(rs, f) == h + w;
      IdsAppend(h, w);
      assert Ids(rs) == {r.id} + Ids(t);
      assert ids * Ids(t) == Ids(w);
      DropDocumentIds(t, f, ids);
    }
  }

  /** The ids of a document's records are ids of the store. */
  lemma {:induction false} IdsOfDocument(rs: seq<Record>, f: string)
    ensures Ids(WithFilename(rs, f)) <= Ids(rs)
    ensures Ids(WithoutFilename(rs, f)) <= Ids(rs)
  {
    if rs != [] {
      var t := rs[1..];
      IdsOfDocument(t, f);
      var a := if rs[0].filename == f then [rs[0]] else [];
      var b := if rs[0].filename != f then [rs[0]] else [];
      assert WithFilename(rs, f) == a + WithFilename(t, f);
      assert WithoutFilename(rs, f) == b + WithoutFilename(t, f);
      IdsAppend(a, WithFilename(t, f));
      IdsAppend(b, WithoutFilename(t, f));
    }
  }

  lemma {:induction false} IdsOfDropped(rs: seq<Record>, ids: set<nat>)
    ensures Ids(DropIds(rs, ids)) <= Ids(rs)
  {
    if rs != [] {
      IdsOfDropped(rs[1..], ids);
      var h := if rs[0].id !in ids then [rs[0]] else [];
      assert DropIds(rs, ids) == h + DropIds(rs[1..], ids);
      IdsAppend(h, DropIds(rs[1..], ids));
    }
  }

  lemma {:induction false} IdsAppend(x: seq<Record>, y: seq<Record>)
    ensures Ids(x + y) == Ids(x) + Ids(y)
  {
    if x == [] {
      assert x + y == y;
    } else {
      assert (x + y)[0] == x[0];
      assert (x + y)[1..] == x[1..] + y;
      IdsAppend(x[1..], y);
    }
  }

  /** One database session over the table. Changes are visible to the
      session at once and reach the database on commit; a rollback discards
      them. Ids come from a sequence, which a rollback does not rewind. */
  class DocumentStore {
    var records: seq<Record>
    var committed: seq<Record>
    var nextId: nat

    ghost predicate Valid()
      reads this
    {
      UniqueIds(records) && UniqueIds(committed) &&
      (forall x :: x in Ids(records) ==> x < nextId) &&
      (forall x :: x in Ids(committed) ==> x < nextId)
    }

    /** A session with no pending changes over the given table contents. */
    constructor(rows: seq<Record>, next: nat)
      requires UniqueIds(rows) && forall x :: x in Ids(rows) ==> x < next
      ensures Valid()
      ensures records == rows && committed == rows && nextId == next
    {
      records := rows;
      committed := rows;
      nextId := next;
    }

    /** `db.add` then `db.flush`: the new row takes the next id. */
    method Add(filename: string, chunkId: int, chunkText: string, embedding: StoredEmbedding, createdAt: int)
      returns (rec: Record)
      requires Valid()
      modifies this
      ensures Valid()
      ensures rec == Record(old(nextId), filename, chunkId, chunkText, embedding, createdAt)
      ensures records == old(records) + [rec]
      ensures committed == old(committed) && nextId == old(nextId) + 1
    {
      rec := Record(nextId, filename, chunkId, chunkText, embedding, createdAt);
      AddKeepsValid(records, rec, nextId);
      records := records + [rec];
      nextId := nextId + 1;
    }

    /** A bulk delete of every record of document `f`; returns how many
        records went. */
    method DeleteFilename(f: string) returns (count: nat)
      requires Valid()
      modifies this
      ensures Valid()
      ensures records == WithoutFilename(old(records), f)
      ensures count == |WithFilename(old(records), f)|
      ensures committed == old(committed) && nextId == old(nextId)
    {
      count := |WithFilename(records, f)|;
      WithoutFilenameKeepsValid(records, f);
      records := WithoutFilename(records, f);
    }

    /** `db.delete` of one record. */
    method DeleteRecord(id: nat)
      requires Valid()
      modifies this
      ensures Valid()
      ensures records == DropIds(old(records), {id})
      ensures committed == old(committed) && nextId == old(nextId)
    {
      DropIdsKeepsValid(records, {id});
      records := DropIds(records, {id});
    }

    method Commit()
      requires Valid()
      modifies this
      ensures Valid()
      ensures committed == old(records) && records == old(records) && nextId == old(nextId)
    {
      committed := records;
    }

    method Rollback()
      requires Valid()
      modifies this
      ensures Valid()
      ensures records == old(committed) && committed == old(committed) && nextId == old(nextId)
    {
      records := committed;
    }
  }

  lemma {:induction false} WithoutFilenameKeepsValid(rs: seq<Record>, f: string)
    requires UniqueIds(rs)
    ensures UniqueIds(WithoutFilename(rs, f))
    ensures Ids(WithoutFilename(rs, f)) <= Ids(rs)
  {
    if rs != [] {
      var t := rs[1..];
      WithoutFilenameKeepsValid(t, f);
      if rs[0].filename != f {
        assert WithoutFilename(rs, f) == [rs[0]] + WithoutFilename(t, f);
        assert ([rs[0]] + WithoutFilename(t, f))[1..] == WithoutFilename(t, f);
      } else {
        assert WithoutFilename(rs, f) == WithoutFilename(t, f);
      }
    }
  }

  lemma {:induction false} DropIdsKeepsValid(rs: seq<Record>, ids: set<nat>)
    requires UniqueIds(rs)
    ensures UniqueIds(DropIds(rs, ids))
    ensures Ids(DropIds(rs, ids)) <= Ids(rs)
  {
    if rs != [] {
      var t := rs[1..];
      DropIdsKeepsValid(t, ids);
      if rs[0].id !in ids {
        assert DropIds(rs, ids) == [rs[0]] + DropIds(t, ids);
        assert ([rs[0]] + DropIds(t, ids))[1..] == DropIds(t, ids);
      } else {
        assert DropIds(rs, ids) == DropIds(t, ids);
      }
    }
  }

  lemma {:induction false} AddKeepsValid(rs: seq<Record>, rec: Record, next: nat)
    requires UniqueIds(rs) && (forall x :: x in Ids(rs) ==> x < next) && rec.id == next
    ensures UniqueIds(rs + [rec]) && Ids(rs + [rec]) == Ids(rs) + {next}
  {
    if rs == [] {
      assert rs + [rec] == [rec];
    } else {
      assert (rs + [rec])[0] == rs[0];
      assert (rs + [rec])[1..] == rs[1..] + [rec];
      assert Ids(rs) == {rs[0].id} + Ids(rs[1..]);
      AddKeepsValid(rs[1..], rec, next);
    }
  }
}
