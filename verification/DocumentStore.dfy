/**
 Documents in two stores: a SQL database with transactions and a vector collection without. Importing
 and deleting keep them in step by ordering the calls, rolling back and cleaning up.

 The connection has a committed state and a working state; commit copies one onto the other and
 rollback the other way. Every call to the vector store, and every commit, may fail.
*/
module DocumentStore {
  import opened VectorStore
  import opened Wrappers

  datatype Document = Document(sourcePath: string, title: string)

  datatype Chunk = Chunk(documentId: Id, chunkIndex: nat, page: Option<int>, content: string)

  datatype Database = Database(documents: map<Id, Document>, chunks: map<Id, Chunk>)

  /** The text of a chunk with its page, as the chunker hands it over. */
  datatype Piece = Piece(content: string, page: Option<int>)

  /** The UNIQUE constraint on source_path. */
  ghost predicate UniquePaths(db: Database) {
    forall a, b | a in db.documents && b in db.documents
        && db.documents[a].sourcePath == db.documents[b].sourcePath :: a == b
  }

  ghost predicate HasPath(db: Database, id: Id, path: string) {
    id in db.documents && db.documents[id].sourcePath == path
  }

  function FindByPath(db: Database, path: string): (found: Option<Id>)
    requires UniquePaths(db)
    ensures found.Some? ==> HasPath(db, found.value, path)
    ensures found.None? ==> forall id :: !HasPath(db, id, path)
  {
    if id :| id in db.documents && db.documents[id].sourcePath == path then
      var id :| id in db.documents && db.documents[id].sourcePath == path;
      Some(id)
    else None
  }

  function ChunksOf(db: Database, documentId: Id): set<Id> {
    set id | id in db.chunks && db.chunks[id].documentId == documentId
  }

  function DeleteDocument(db: Database, documentId: Id): Database {
    Database(db.documents - {documentId}, db.chunks - ChunksOf(db, documentId))
  }

  /** INSERT INTO documents: the precondition is the primary key and the UNIQUE constraint. */
  function InsertDocument(db: Database, id: Id, document: Document): Database
    requires id !in db.documents && forall other :: !HasPath(db, other, document.sourcePath)
  {
    db.(documents := db.documents[id := document])
  }

  /** INSERT INTO document_chunks, one row after the other: the precondition is the primary key. */
  function InsertChunks(db: Database, documentId: Id, pieces: seq<Piece>, ids: seq<Id>): Database
    requires |ids| == |pieces| && Distinct(ids) && forall id | id in ids :: id !in db.chunks
  {
    db.(chunks := db.chunks + ChunkRows(documentId, pieces, ids, |ids|))
  }

  /** The rows of the first n chunks. */
  function ChunkRows(documentId: Id, pieces: seq<Piece>, ids: seq<Id>, n: nat): (rows: map<Id, Chunk>)
    requires n <= |ids| == |pieces|
  {
    if n == 0 then map[]
    else ChunkRows(documentId, pieces, ids, n - 1)[ids[n - 1] := Row(documentId, pieces, n - 1)]
  }

  function Row(documentId: Id, pieces: seq<Piece>, index: nat): Chunk
    requires index < |pieces|
  {
    Chunk(documentId, index, pieces[index].page, pieces[index].content)
  }

  lemma {:induction false} ChunkRowKeys(documentId: Id, pieces: seq<Piece>, ids: seq<Id>, n: nat)
    requires n <= |ids| == |pieces|
    ensures ChunkRows(documentId, pieces, ids, n).Keys == ToSet(ids[..n])
  {
    if n > 0 {
      ChunkRowKeys(documentId, pieces, ids, n - 1);
      assert ids[..n] == ids[..n - 1] + [ids[n - 1]];
    }
  }

  lemma {:induction false} ChunkRowAt(documentId: Id, pieces: seq<Piece>, ids: seq<Id>, n: nat, i: nat)
    requires i < n <= |ids| == |pieces| && Distinct(ids)
    ensures ids[i] in ChunkRows(documentId, pieces, ids, n)
    ensures ChunkRows(documentId, pieces, ids, n)[ids[i]] == Row(documentId, pieces, i)
  {
    if i < n - 1 {
      ChunkRowAt(documentId, pieces, ids, n - 1, i);
    }
  }

  function NewEntries(documentId: Id, path: string, ids: seq<Id>, n: nat): (entries: seq<Entry>)
    requires n <= |ids|
    ensures |entries| == n
    ensures forall i | 0 <= i < n :: entries[i] == Entry(ids[i], Meta(documentId, path, i))
  {
    if n == 0 then [] else NewEntries(documentId, path, ids, n - 1) + [Entry(ids[n - 1], Meta(documentId, path, n - 1))]
  }

  function ToSet(ids: seq<Id>): set<Id> {
    set id | id in ids
  }

  // ---- The three operations ----

  /** The two stores together. */
  datatype World = World(committed: Database, working: Database, store: Collection)

  datatype Config = Config(model: string, batchSize: nat)

  /** One import, with the uuids it draws and the way each of its calls goes. */
  datatype ImportCall = ImportCall(
    path: string, title: string, pieces: seq<Piece>, documentId: Id, chunkIds: seq<Id>,
    deleteFault: Fault, labelFails: bool, addFaults: seq<Fault>, commitFails: bool, cleanupFault: Fault)

  /** The request names a path, or failing that an id; the empty path is no path. */
  datatype DeleteCall = DeleteCall(sourcePath: string, documentId: Option<Id>, fault: Fault, commitFails: bool)

  /** Opening the pipeline: the model now configured and the order in which the join lists the chunks. */
  datatype ReembedCall = ReembedCall(order: seq<Id>, model: string, labelFails: bool, fault: RebuildFault)

  /** New uuids. */
  ghost predicate FreshIds(w: World, call: ImportCall) {
    && |call.chunkIds| == |call.pieces| && Distinct(call.chunkIds)
    && call.documentId !in w.working.documents
    && forall id | id in call.chunkIds :: id !in w.working.chunks
  }

  function Forget(w: World, documentId: Id, fault: Fault): World {
    var v := w.store.vectors;
    World(w.committed, DeleteDocument(w.working, documentId),
          w.store.(vectors := Delete(v, WithDocument(v, documentId), fault)))
  }

  function WithoutPath(w: World, path: string, fault: Fault): (left: World)
    requires UniquePaths(w.working)
    ensures UniquePaths(left.working) && forall id :: !HasPath(left.working, id, path)
    ensures left.working.documents.Keys <= w.working.documents.Keys && left.working.chunks.Keys <= w.working.chunks.Keys
  {
    var existing := FindByPath(w.working, path);
    if existing.Some? then Forget(w, existing.value, fault) else w
  }

  function Inserted(db: Database, call: ImportCall): Database
    requires |call.chunkIds| == |call.pieces| && Distinct(call.chunkIds)
    requires call.documentId !in db.documents && forall id :: !HasPath(db, id, call.path)
    requires forall id | id in call.chunkIds :: id !in db.chunks
  {
    InsertChunks(InsertDocument(db, call.documentId, Document(call.path, call.title)), call.documentId, call.pieces,
        call.chunkIds)
  }

  function Import(config: Config, w: World, call: ImportCall): (World, bool)
    requires config.batchSize >= 1 && UniquePaths(w.working) && FreshIds(w, call)
  {
    if call.pieces == [] then (w, false)
    else
      var w1 := WithoutPath(w, call.path, call.deleteFault);
      var db := Inserted(w1.working, call);
      var entries := NewEntries(call.documentId, call.path, call.chunkIds, |call.chunkIds|);
      var (store, added) := AddAll(w1.store, config.model, entries, config.batchSize, call.labelFails, call.addFaults);
      if added && !call.commitFails then (World(db, db, store), true)
      else
        var cleaned := Delete(store.vectors, ToSet(call.chunkIds), call.cleanupFault);
        (World(w.committed, w.committed, store.(vectors := cleaned)), false)
  }

  function FindForDelete(db: Database, call: DeleteCall): (found: Option<Id>)
    requires UniquePaths(db)
    ensures found.Some? ==> found.value in db.documents
  {
    if call.sourcePath != "" then FindByPath(db, call.sourcePath)
    else if call.documentId.Some? && call.documentId.value in db.documents then call.documentId
    else None
  }

  /**
   The vectors go first and their failure is only logged; then the rows. A failed commit leaves the deletion
   pending.
  */
  function Remove(w: World, call: DeleteCall): (World, bool)
    requires UniquePaths(w.working)
  {
    var found := FindForDelete(w.working, call);
    if found.None? then (w, true)
    else
      var w1 := Forget(w, found.value, call.fault);
      if call.commitFails then (w1, false) else (w1.(committed := w1.working), true)
  }

  ghost predicate IsListing(order: seq<Id>, db: Database) {
    Distinct(order) && forall id :: id in order <==> id in db.chunks && db.chunks[id].documentId in db.documents
  }

  function Listed(db: Database, order: seq<Id>): (entries: seq<Entry>)
    requires forall id | id in order :: id in db.chunks && db.chunks[id].documentId in db.documents
    ensures |entries| == |order|
    ensures forall i | 0 <= i < |order| :: entries[i].id == order[i]
  {
    seq(|order|, i requires 0 <= i < |order| =>
      var c := db.chunks[order[i]];
      Entry(order[i], Meta(c.documentId, db.documents[c.documentId].sourcePath, c.chunkIndex)))
  }

  function Reembed(w: World, call: ReembedCall): (World, bool)
    requires forall id | id in call.order ::
             id in w.working.chunks && w.working.chunks[id].documentId in w.working.documents
  {
    var (store, ok) := EnsureConsistent(w.store, call.model, Listed(w.working, call.order), call.labelFails,
        call.fault);
    (w.(store := store), ok)
  }

  /** The repository over one connection, and the operations that use it together with the vector store. */
  class DocumentRepository {
    const config: Config
    var committed: Database
    var working: Database

    constructor (config: Config)
      ensures this.config == config && committed == working == Database(map[], map[])
    {
      this.config := config;
      committed := Database(map[], map[]);
      working := Database(map[], map[]);
    }

    function Together(store: ChromaStore): World
      reads this, store
    {
      World(committed, working, store.collection)
    }

    /** One row a chunk, collecting the ids and the metadata for the vector store on the way. */
    method InsertChunkRows(documentId: Id, path: string, pieces: seq<Piece>, ids: seq<Id>) returns (entries: seq<Entry>)
      requires |ids| == |pieces| && Distinct(ids) && forall id | id in ids :: id !in working.chunks
      modifies this`working
      ensures working == InsertChunks(old(working), documentId, pieces, ids)
      ensures entries == NewEntries(documentId, path, ids, |ids|)
    {
      entries := [];
      ghost var before := working;
      for index := 0 to |pieces|
        invariant working == before.(chunks := before.chunks + ChunkRows(documentId, pieces, ids, index))
        invariant entries == NewEntries(documentId, path, ids, index)
      {
        working := working.(chunks := working.chunks[ids[index] := Row(documentId, pieces, index)]);
        entries := entries + [Entry(ids[index], Meta(documentId, path, index))];
      }
    }

    method ForgetDocument(store: ChromaStore, documentId: Id, fault: Fault)
      modifies this`working, store
      ensures Together(store) == Forget(old(Together(store)), documentId, fault)
    {
      var _ := store.DeleteByDocumentId(documentId, fault);
      working := DeleteDocument(working, documentId);
    }

    method SaveDocumentWithChunks(store: ChromaStore, call: ImportCall) returns (ok: bool)
      requires config.batchSize >= 1 && UniquePaths(working) && FreshIds(Together(store), call) && call.pieces != []
      modifies this, store
      ensures (Together(store), ok) == Import(config, old(Together(store)), call)
    {
      var existing := FindByPath(working, call.path);
      if existing.Some? {
        ForgetDocument(store, existing.value, call.deleteFault);
      }
      assert Together(store) == WithoutPath(old(Together(store)), call.path, call.deleteFault);
      working := InsertDocument(working, call.documentId, Document(call.path, call.title));
      var entries := InsertChunkRows(call.documentId, call.path, call.pieces, call.chunkIds);
      var added := store.AddChunks(config.model, entries, config.batchSize, call.labelFails, call.addFaults);
      if added && !call.commitFails {
        committed := working;
        return true;
      }
      working := committed;
      var _ := store.DeleteByIds(ToSet(call.chunkIds), call.cleanupFault);
      return false;
    }

    method ImportDocument(store: ChromaStore, call: ImportCall) returns (ok: bool)
      requires config.batchSize >= 1 && UniquePaths(working) && FreshIds(Together(store), call)
      modifies this, store
      ensures (Together(store), ok) == Import(config, old(Together(store)), call)
    {
      if call.pieces == [] {
        return false;
      }
      ok := SaveDocumentWithChunks(store, call);
    }

    method RemoveDocument(store: ChromaStore, call: DeleteCall) returns (ok: bool)
      requires UniquePaths(working)
      modifies this, store
      ensures (Together(store), ok) == Remove(old(Together(store)), call)
    {
      var row := FindForDelete(working, call);
      if row.None? {
        return true;
      }
      ForgetDocument(store, row.value, call.fault);
      if call.commitFails {
        return false;
      }
      committed := working;
      return true;
    }

    method OpenPipeline(store: ChromaStore, call: ReembedCall) returns (ok: bool, rebuilt: bool)
      requires IsListing(call.order, working)
      modifies store
      ensures (Together(store), ok) == Reembed(old(Together(store)), call)
      ensures rebuilt <==> ok && MustRebuild(old(store.collection), call.model, Listed(working, call.order))
    {
      var entries := Listed(working, call.order);
      ok, rebuilt := store.EnsureEmbeddingConsistency(call.model, entries, call.labelFails, call.fault);
    }
  }
}
