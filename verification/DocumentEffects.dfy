/**
 What deleting a document, importing one and opening the pipeline leave in the two stores, told by the
 rows and vectors themselves: what becomes of a document, and what is left alone.
*/
module DocumentEffects {
  import opened VectorStore
  import opened DocumentStore
  import opened DocumentStoreRuns
  import opened Wrappers

  // ---- Deleting ----

  /** The document a request is about: by its path, or by its id if the path is empty. */
  ghost predicate Named(db: Database, call: DeleteCall, id: Id) {
    if call.sourcePath != "" then HasPath(db, id, call.sourcePath)
    else call.documentId.Some? && call.documentId.value == id && id in db.documents
  }

  /** The document and its chunks are gone, and no other row is touched. */
  ghost predicate RowsGone(before: Database, after: Database, documentId: Id) {
    && (forall id :: id in after.documents <==> id in before.documents && id != documentId)
    && (forall id | id in after.documents :: after.documents[id] == before.documents[id])
    && (forall id :: id in after.chunks <==> id in before.chunks && before.chunks[id].documentId != documentId)
    && (forall id | id in after.chunks :: after.chunks[id] == before.chunks[id])
  }

  /** Of the vectors of the document only those a failing call did not reach are left; all others are untouched. */
  ghost predicate VectorsGone(before: Vectors, after: Vectors, documentId: Id, fault: Fault) {
    && (forall id :: id in after
         <==> id in before && (before[id].documentId != documentId || (fault.Fails? && id !in fault.reached)))
    && (forall id | id in after :: after[id] == before[id])
  }

  lemma NamedIsFound(db: Database, call: DeleteCall, id: Id)
    requires UniquePaths(db)
    ensures Named(db, call, id) <==> FindForDelete(db, call).Some? && FindForDelete(db, call).value == id
  {
  }

  /**
   A request that names a document takes away its rows and vectors and nothing else. It fails if and only
   if the commit does, and then what is committed stays as it was.
  */
  lemma DeletionRemovesNamed(w: World, call: DeleteCall, id: Id)
    requires UniquePaths(w.working) && Named(w.working, call, id)
    ensures var (w', ok) := Remove(w, call);
            && RowsGone(w.working, w'.working, id)
            && VectorsGone(w.store.vectors, w'.store.vectors, id, call.fault) && w'.store.stored == w.store.stored
            && (ok <==> !call.commitFails)
            && w'.committed == if ok then w'.working else w.committed
  {
    NamedIsFound(w.working, call, id);
  }

  /**
   A request changes nothing and succeeds if and only if there is no document that it names. A path that is
   not found does not fall back to the id.
  */
  lemma DeletionIdleIff(w: World, call: DeleteCall)
    requires UniquePaths(w.working)
    ensures Remove(w, call) == (w, true) <==> forall id :: !Named(w.working, call, id)
  {
    var found := FindForDelete(w.working, call);
    if found.Some? {
      NamedIsFound(w.working, call, found.value);
      DeletionRemovesNamed(w, call, found.value);
    } else {
      forall id
        ensures !Named(w.working, call, id)
      {
        NamedIsFound(w.working, call, id);
      }
    }
  }

  /** In any run, a deletion that succeeds leaves nothing of the document it names in what is committed. */
  lemma DeletedFromRun(config: Config, hs: seq<History>, ops: seq<Operation>, i: nat, call: DeleteCall, id: Id)
    requires IsRun(config, hs, ops) && i < |ops| && ops[i] == RemoveOp(call) && !call.commitFails
    requires Named(hs[i].world.working, call, id)
    ensures var w := hs[i + 1].world;
            && w.committed == w.working && id !in w.committed.documents
            && (forall chunk | chunk in w.committed.chunks :: w.committed.chunks[chunk].documentId != id)
            && (call.fault.Works? ==>
                  forall v | v in w.store.vectors :: w.store.vectors[v].documentId != id)
  {
    RunInvariant(config, hs, ops, i);
    TakesStep(config, hs, ops, i);
    DeletionRemovesNamed(hs[i].world, call, id);
  }

  // ---- Importing ----

  /** Each chunk has a vector under its document, path and number. */
  ghost predicate ChunksHaveVectors(v: Vectors, call: ImportCall) {
    forall i | 0 <= i < |call.chunkIds| ::
      call.chunkIds[i] in v && v[call.chunkIds[i]] == Meta(call.documentId, call.path, i)
  }

  lemma AddedVectors(config: Config, c: Collection, call: ImportCall)
    requires config.batchSize >= 1 && |call.chunkIds| == |call.pieces| && Distinct(call.chunkIds)
    requires ToSet(call.chunkIds) !! c.vectors.Keys && AddedStore(config, c, call).1
    ensures var v := AddedStore(config, c, call).0.vectors;
            && ChunksHaveVectors(v, call)
            && (forall id | id !in call.chunkIds :: id in v <==> id in c.vectors)
            && (forall id | id !in call.chunkIds && id in v :: v[id] == c.vectors[id])
  {
    AddAllExtends(config, c, call);
    NewEntryIds(call);
    var v := AddedStore(config, c, call).0.vectors;
    var entries := NewEntries(call.documentId, call.path, call.chunkIds, |call.chunkIds|);
    forall i | 0 <= i < |call.chunkIds|
      ensures call.chunkIds[i] in v && v[call.chunkIds[i]] == Meta(call.documentId, call.path, i)
    {
      assert call.chunkIds[i] in ToSet(call.chunkIds);
      var k :| 0 <= k < |entries| && entries[k] == Entry(call.chunkIds[i], v[call.chunkIds[i]]);
      assert entries[k].id == call.chunkIds[k];
    }
  }

  /**
   An import succeeds when nothing fails, unless there is no chunk, which changes nothing; and a successful
   import has stored a vector for each chunk.
  */
  lemma ImportStoresVectors(config: Config, h: History, call: ImportCall)
    requires Ready(config, h, ImportOp(call))
    ensures var (w', ok) := Import(config, h.world, call);
            && (NothingFails(ImportOp(call)) ==> (ok <==> call.pieces != []))
            && (call.pieces == [] ==> w' == h.world && !ok)
            && (ok ==> ChunksHaveVectors(w'.store.vectors, call))
  {
    if call.pieces != [] {
      ForgetPathInvariant(h, call.path, call.deleteFault);
      var h1 := ForgetPath(h, call.path, call.deleteFault);
      if NothingFails(ImportOp(call)) {
        NothingFailsAdds(config, h1.world.store, call);
      }
      if Import(config, h.world, call).1 {
        AddedVectors(config, h1.world.store, call);
      }
    }
  }

  lemma ForgetPathKeeps(h: History, path: string, fault: Fault, id: Id)
    requires UniquePaths(h.world.working) && id in h.world.store.vectors
    requires !HasPath(h.world.working, h.world.store.vectors[id].documentId, path)
    ensures var v := ForgetPath(h, path, fault).world.store.vectors; id in v && v[id] == h.world.store.vectors[id]
  {
  }

  lemma AddingKeeps(config: Config, c: Collection, call: ImportCall, id: Id)
    requires config.batchSize >= 1 && |call.chunkIds| == |call.pieces| && Distinct(call.chunkIds)
    requires ToSet(call.chunkIds) !! c.vectors.Keys && id in c.vectors
    ensures var v := AddedStore(config, c, call).0.vectors;
            && id in v && v[id] == c.vectors[id]
            && id in Delete(v, ToSet(call.chunkIds), call.cleanupFault)
  {
    AddAllExtends(config, c, call);
    NewEntryIds(call);
  }

  /** Whatever fails, an import leaves the vectors of other documents as they were. */
  lemma ImportKeepsOthers(config: Config, h: History, call: ImportCall, id: Id)
    requires Ready(config, h, ImportOp(call)) && id in h.world.store.vectors
    requires !HasPath(h.world.working, h.world.store.vectors[id].documentId, call.path)
    ensures var v := Import(config, h.world, call).0.store.vectors; id in v && v[id] == h.world.store.vectors[id]
  {
    if call.pieces != [] {
      ForgetPathKeeps(h, call.path, call.deleteFault, id);
      ForgetPathInvariant(h, call.path, call.deleteFault);
      AddingKeeps(config, ForgetPath(h, call.path, call.deleteFault).world.store, call, id);
    }
  }

  // ---- Opening the pipeline ----

  /** The vectors are those of the chunks that belong to a document, each under its document, path and number. */
  ghost predicate VectorsOfChunks(db: Database, v: Vectors) {
    && (forall id :: id in v <==> id in db.chunks && db.chunks[id].documentId in db.documents)
    && (forall id | id in v :: Backed(db, id, v[id]))
  }

  lemma ListedAll(db: Database, order: seq<Id>, v: Vectors)
    requires IsListing(order, db) && v.Keys == ToSet(order) && Extends(map[], v, Listed(db, order))
    ensures VectorsOfChunks(db, v)
  {
    ListedIds(db, order);
    forall id | id in v
      ensures Backed(db, id, v[id])
    {
      ListedBacked(db, order, Entry(id, v[id]));
    }
  }

  /**
   Opening never touches a row. When the stored label is another model's and some chunk belongs to a
   document, it succeeds if nothing fails, and then the collection holds exactly the vectors of those chunks
   under the new label; otherwise no vector changes.
  */
  lemma OpeningRebuilds(w: World, call: ReembedCall)
    requires IsListing(call.order, w.working)
    ensures var (w', ok) := Reembed(w, call);
            && w'.committed == w.committed && w'.working == w.working
            && (NothingFails(ReembedOp(call)) ==> ok)
    ensures var (w', ok) := Reembed(w, call);
            if w.store.stored.Model? && w.store.stored.name != call.model && call.order != [] then
              ok ==> VectorsOfChunks(w.working, w'.store.vectors) && w'.store.stored == Model(call.model)
            else w'.store.vectors == w.store.vectors
  {
    RebuiltExtends(w.store, w.working, call);
    if NothingFails(ReembedOp(call)) {
      RebuildWorks(w, call);
    }
    if MustRebuild(w.store, call.model, Listed(w.working, call.order)) && Reembed(w, call).1 {
      ListedAll(w.working, call.order, Reembed(w, call).0.store.vectors);
    }
  }
}
