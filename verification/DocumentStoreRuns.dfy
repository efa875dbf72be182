/**
 Runs of imports, re-imports, deletions and pipeline openings over the two stores, with every call
 to the vector store and every commit free to fail, in whole or in part.
*/
module DocumentStoreRuns {
  import opened VectorStore
  import opened DocumentStore
  import opened Wrappers

  datatype Operation =
    | ImportOp(importCall: ImportCall)
    | RemoveOp(deleteCall: DeleteCall)
    | ReembedOp(reembedCall: ReembedCall)

  /**
   The two stores together with what only the history knows: the vector ids that a failed delete
   call left behind, and every uuid drawn so far.
  */
  datatype History = History(world: World, undeleted: set<Id>, used: set<Id>)

  // ---- The SQL side alone ----

  ghost predicate HasChunk(db: Database, documentId: Id, index: nat) {
    exists id :: IsChunk(db, id, documentId, index)
  }

  ghost predicate IsChunk(db: Database, id: Id, documentId: Id, index: nat) {
    id in db.chunks && db.chunks[id].documentId == documentId && db.chunks[id].chunkIndex == index
  }

  /** No chunk without its document, and the chunks of a document numbered 0, 1, 2, ... without gap or repetition. */
  ghost predicate Numbered(db: Database) {
    && (forall id | id in db.chunks :: db.chunks[id].documentId in db.documents)
    && (forall id | id in db.chunks && db.chunks[id].chunkIndex > 0 ::
          HasChunk(db, db.chunks[id].documentId, db.chunks[id].chunkIndex - 1))
    && (forall a, b, d, i :: IsChunk(db, a, d, i) && IsChunk(db, b, d, i) ==> a == b)
  }

  ghost predicate Sound(db: Database) {
    UniquePaths(db) && Numbered(db)
  }

  lemma DeleteSound(db: Database, documentId: Id)
    requires Sound(db)
    ensures Sound(DeleteDocument(db, documentId))
  {
    var db' := DeleteDocument(db, documentId);
    assert forall id, d, i :: IsChunk(db', id, d, i) <==> IsChunk(db, id, d, i) && d != documentId;
    forall id | id in db'.chunks && db'.chunks[id].chunkIndex > 0
      ensures HasChunk(db', db'.chunks[id].documentId, db'.chunks[id].chunkIndex - 1)
    {
      assert HasChunk(db, db.chunks[id].documentId, db.chunks[id].chunkIndex - 1);
      var other :| IsChunk(db, other, db.chunks[id].documentId, db.chunks[id].chunkIndex - 1);
      assert IsChunk(db', other, db.chunks[id].documentId, db.chunks[id].chunkIndex - 1);
    }
  }

  /** The preconditions of Inserted: neither a primary key nor the UNIQUE constraint can be hit. */
  ghost predicate Insertable(db: Database, call: ImportCall) {
    && |call.chunkIds| == |call.pieces| && Distinct(call.chunkIds)
    && call.documentId !in db.documents && (forall id :: !HasPath(db, id, call.path))
    && forall id | id in call.chunkIds :: id !in db.chunks
  }

  lemma InsertedKeys(db: Database, call: ImportCall)
    requires Insertable(db, call)
    ensures Inserted(db, call).documents.Keys == db.documents.Keys + {call.documentId}
    ensures Inserted(db, call).chunks.Keys == db.chunks.Keys + ToSet(call.chunkIds)
  {
    ChunkRowKeys(call.documentId, call.pieces, call.chunkIds, |call.chunkIds|);
    assert call.chunkIds[..|call.chunkIds|] == call.chunkIds;
  }

  lemma InsertedKeepsRow(db: Database, call: ImportCall, id: Id)
    requires Insertable(db, call) && id !in call.chunkIds
    ensures id in Inserted(db, call).chunks <==> id in db.chunks
    ensures id in db.chunks ==> Inserted(db, call).chunks[id] == db.chunks[id]
  {
    ChunkRowKeys(call.documentId, call.pieces, call.chunkIds, |call.chunkIds|);
    assert call.chunkIds[..|call.chunkIds|] == call.chunkIds;
  }

  /** The rows an import adds: chunk i of the new document is the i-th new id. */
  lemma InsertedChunks(db: Database, call: ImportCall, id: Id, d: Id, i: nat)
    requires Insertable(db, call) && Numbered(db)
    ensures var db' := Inserted(db, call);
            IsChunk(db', id, d, i) <==>
            if d == call.documentId then i < |call.chunkIds| && id == call.chunkIds[i] else IsChunk(db, id, d, i)
  {
    InsertedKeys(db, call);
    if k :| 0 <= k < |call.chunkIds| && call.chunkIds[k] == id {
      ChunkRowAt(call.documentId, call.pieces, call.chunkIds, |call.chunkIds|, k);
    } else {
      InsertedKeepsRow(db, call, id);
    }
    if d == call.documentId && i < |call.chunkIds| {
      ChunkRowAt(call.documentId, call.pieces, call.chunkIds, |call.chunkIds|, i);
    }
  }

  lemma InsertedSound(db: Database, call: ImportCall)
    requires Insertable(db, call) && Sound(db)
    ensures Sound(Inserted(db, call))
  {
    var db' := Inserted(db, call);
    assert forall id :: id in db'.documents <==> id in db.documents || id == call.documentId;
    forall a, b | a in db'.documents && b in db'.documents && db'.documents[a].sourcePath == db'.documents[b].sourcePath
      ensures a == b
    {
      assert !HasPath(db, a, call.path) && !HasPath(db, b, call.path);
    }
    InsertedNumbered(db, call);
  }

  lemma InsertedNumbered(db: Database, call: ImportCall)
    requires Insertable(db, call) && Numbered(db)
    ensures Numbered(Inserted(db, call))
  {
    var db' := Inserted(db, call);
    forall id | id in db'.chunks
      ensures db'.chunks[id].documentId in db'.documents
      ensures db'.chunks[id].chunkIndex > 0 ==> HasChunk(db', db'.chunks[id].documentId, db'.chunks[id].chunkIndex - 1)
    {
      var d, i := db'.chunks[id].documentId, db'.chunks[id].chunkIndex;
      assert IsChunk(db', id, d, i);
      InsertedChunks(db, call, id, d, i);
      if i > 0 {
        if d == call.documentId {
          InsertedChunks(db, call, call.chunkIds[i - 1], d, i - 1);
        } else {
          assert HasChunk(db, d, i - 1);
          var other :| IsChunk(db, other, d, i - 1);
          InsertedChunks(db, call, other, d, i - 1);
        }
      }
    }
    forall a, b, d, i | IsChunk(db', a, d, i) && IsChunk(db', b, d, i)
      ensures a == b
    {
      InsertedChunks(db, call, a, d, i);
      InsertedChunks(db, call, b, d, i);
    }
  }

  // ---- The vectors against the SQL rows ----

  /** The vector is that of a chunk in the database, under the same document, path and position. */
  ghost predicate Backed(db: Database, id: Id, meta: Meta) {
    && id in db.chunks
    && db.chunks[id].documentId == meta.documentId && db.chunks[id].chunkIndex == meta.chunkIndex
    && HasPath(db, meta.documentId, meta.sourcePath)
  }

  /** Every vector is that of a chunk, or one that a failed delete call left. */
  ghost predicate Accounted(db: Database, v: Vectors, undeleted: set<Id>) {
    forall id | id in v :: id in undeleted || Backed(db, id, v[id])
  }

  /** What a delete call left behind of its targets. */
  function Leftover(v: Vectors, targets: set<Id>, fault: Fault): set<Id> {
    Delete(v, targets, fault).Keys * targets
  }

  lemma ForgetAccounted(db: Database, v: Vectors, undeleted: set<Id>, documentId: Id, fault: Fault)
    requires Accounted(db, v, undeleted)
    ensures var targets := WithDocument(v, documentId);
            Accounted(DeleteDocument(db, documentId), Delete(v, targets, fault),
                undeleted + Leftover(v, targets, fault))
  {
    var targets := WithDocument(v, documentId);
    var v' := Delete(v, targets, fault);
    forall id | id in v' && id !in undeleted && id !in Leftover(v, targets, fault)
      ensures Backed(DeleteDocument(db, documentId), id, v'[id])
    {
      assert Backed(db, id, v[id]) && v[id].documentId != documentId;
    }
  }

  lemma DeleteAccounted(db: Database, v: Vectors, undeleted: set<Id>, targets: set<Id>, fault: Fault)
    requires Accounted(db, v, undeleted)
    ensures Accounted(db, Delete(v, targets, fault), undeleted + Leftover(v, targets, fault))
  {
  }

  // ---- The invariant of every run ----

  /** A deletion whose commit failed is pending: rows are missing from the working state, nothing else. */
  ghost predicate Within(db: Database, whole: Database) {
    && (forall id | id in db.documents :: id in whole.documents && whole.documents[id] == db.documents[id])
    && (forall id | id in db.chunks :: id in whole.chunks && whole.chunks[id] == db.chunks[id])
  }

  ghost predicate Invariant(h: History) {
    && Sound(h.world.committed) && Sound(h.world.working) && Within(h.world.working, h.world.committed)
    && Accounted(h.world.committed, h.world.store.vectors, h.undeleted)
    && Accounted(h.world.working, h.world.store.vectors, h.undeleted)
    && h.world.committed.documents.Keys + h.world.committed.chunks.Keys + h.world.store.vectors.Keys <= h.used
  }

  /** The uuids of an import were never drawn before; the join lists the chunks there are. */
  ghost predicate Allowed(h: History, op: Operation) {
    match op
    case ImportOp(call) =>
      && |call.chunkIds| == |call.pieces| && Distinct(call.chunkIds)
      && call.documentId !in h.used && forall id | id in call.chunkIds :: id !in h.used
    case RemoveOp(call) => true
    case ReembedOp(call) => IsListing(call.order, h.world.working)
  }

  /** The first half of an import: the document at the path, if any, and its vectors. */
  function ForgetPath(h: History, path: string, fault: Fault): History
    requires UniquePaths(h.world.working)
  {
    var existing := FindByPath(h.world.working, path);
    if existing.None? then h
    else
      var v := h.world.store.vectors;
      History(Forget(h.world, existing.value, fault),
          h.undeleted + Leftover(v, WithDocument(v, existing.value), fault), h.used)
  }

  /** The collection after the chunks were added, or after the call that failed. */
  function AddedStore(config: Config, store: Collection, call: ImportCall): (Collection, bool)
    requires config.batchSize >= 1
  {
    AddAll(store, config.model, NewEntries(call.documentId, call.path, call.chunkIds, |call.chunkIds|),
           config.batchSize, call.labelFails, call.addFaults)
  }

  /** The vectors an import leaves that a failed delete call should have removed. */
  function ImportLeftover(config: Config, h: History, call: ImportCall): set<Id>
    requires config.batchSize >= 1 && UniquePaths(h.world.working)
  {
    if call.pieces == [] then h.undeleted
    else
      var h1 := ForgetPath(h, call.path, call.deleteFault);
      var (store, added) := AddedStore(config, h1.world.store, call);
      if added && !call.commitFails then h1.undeleted
      else h1.undeleted + Leftover(store.vectors, ToSet(call.chunkIds), call.cleanupFault)
  }

  function RemoveLeftover(w: World, call: DeleteCall): set<Id>
    requires UniquePaths(w.working)
  {
    var found := FindForDelete(w.working, call);
    if found.None? then {}
    else Leftover(w.store.vectors, WithDocument(w.store.vectors, found.value), call.fault)
  }

  ghost predicate Ready(config: Config, h: History, op: Operation) {
    config.batchSize >= 1 && Invariant(h) && Allowed(h, op)
  }

  function Next(config: Config, h: History, op: Operation): History
    requires Ready(config, h, op)
  {
    match op
    case ImportOp(call) =>
      History(Import(config, h.world, call).0, ImportLeftover(config, h, call),
              h.used + {call.documentId} + ToSet(call.chunkIds))
    case RemoveOp(call) =>
      h.(world := Remove(h.world, call).0, undeleted := h.undeleted + RemoveLeftover(h.world, call))
    case ReembedOp(call) =>
      h.(world := Reembed(h.world, call).0)
  }

  // ---- Import ----

  lemma ForgetPathInvariant(h: History, path: string, fault: Fault)
    requires Invariant(h)
    ensures var h1 := ForgetPath(h, path, fault);
            Invariant(h1) && h1.world == WithoutPath(h.world, path, fault) && h1.used == h.used
  {
    var existing := FindByPath(h.world.working, path);
    if existing.Some? {
      ForgetInvariant(h, existing.value, fault);
    }
  }

  lemma ForgetInvariant(h: History, documentId: Id, fault: Fault)
    requires Invariant(h)
    ensures Invariant(History(Forget(h.world, documentId, fault),
                              h.undeleted + Leftover(h.world.store.vectors,
                                  WithDocument(h.world.store.vectors, documentId), fault), h.used))
  {
    var v := h.world.store.vectors;
    DeleteSound(h.world.working, documentId);
    ForgetAccounted(h.world.working, v, h.undeleted, documentId, fault);
    DeleteAccounted(h.world.committed, v, h.undeleted, WithDocument(v, documentId), fault);
  }

  lemma BackedAfterInsert(db: Database, call: ImportCall, id: Id, meta: Meta)
    requires Insertable(db, call) && Backed(db, id, meta)
    ensures Backed(Inserted(db, call), id, meta)
  {
    InsertedKeepsRow(db, call, id);
  }

  lemma NewEntryBacked(db: Database, call: ImportCall, e: Entry)
    requires Insertable(db, call) && e in NewEntries(call.documentId, call.path, call.chunkIds, |call.chunkIds|)
    ensures Backed(Inserted(db, call), e.id, e.meta)
  {
    var entries := NewEntries(call.documentId, call.path, call.chunkIds, |call.chunkIds|);
    var i :| 0 <= i < |entries| && entries[i] == e;
    ChunkRowAt(call.documentId, call.pieces, call.chunkIds, |call.chunkIds|, i);
  }

  lemma NewEntryIds(call: ImportCall)
    requires |call.chunkIds| == |call.pieces| && Distinct(call.chunkIds)
    ensures var entries := NewEntries(call.documentId, call.path, call.chunkIds, |call.chunkIds|);
            DistinctIds(entries) && Ids(entries) == ToSet(call.chunkIds)
  {
    var entries := NewEntries(call.documentId, call.path, call.chunkIds, |call.chunkIds|);
    forall id | id in call.chunkIds
      ensures id in Ids(entries)
    {
      var i :| 0 <= i < |call.chunkIds| && call.chunkIds[i] == id;
      assert entries[i].id == id && entries[i] in entries;
    }
  }

  /** What adding the chunks does to the collection, whether it succeeds or stops part way. */
  lemma AddAllExtends(config: Config, c: Collection, call: ImportCall)
    requires config.batchSize >= 1 && |call.chunkIds| == |call.pieces| && Distinct(call.chunkIds)
    requires ToSet(call.chunkIds) !! c.vectors.Keys
    ensures var entries := NewEntries(call.documentId, call.path, call.chunkIds, |call.chunkIds|);
            var (c', ok) := AddAll(c, config.model, entries, config.batchSize, call.labelFails, call.addFaults);
            Extends(c.vectors, c'.vectors, entries) && (ok ==> c'.vectors.Keys == c.vectors.Keys + ToSet(call.chunkIds))
  {
    NewEntryIds(call);
    var entries := NewEntries(call.documentId, call.path, call.chunkIds, |call.chunkIds|);
    assert entries[0..] == entries;
    AddBatchesExtends(c.vectors, entries, 0, config.batchSize, call.addFaults, 0);
  }

  lemma AddedAccounted(db: Database, v: Vectors, undeleted: set<Id>, call: ImportCall, v': Vectors)
    requires Insertable(db, call) && Accounted(db, v, undeleted)
    requires Extends(v, v', NewEntries(call.documentId, call.path, call.chunkIds, |call.chunkIds|))
    requires ToSet(call.chunkIds) !! v.Keys
    ensures Accounted(Inserted(db, call), v', undeleted)
  {
    NewEntryIds(call);
    forall id | id in v' && id !in undeleted
      ensures Backed(Inserted(db, call), id, v'[id])
    {
      if id in call.chunkIds {
        NewEntryBacked(db, call, Entry(id, v'[id]));
      } else {
        BackedAfterInsert(db, call, id, v[id]);
      }
    }
  }

  lemma CleanedAccounted(db: Database, v: Vectors, undeleted: set<Id>, call: ImportCall, v': Vectors)
    requires |call.chunkIds| == |call.pieces| && Distinct(call.chunkIds) && Accounted(db, v, undeleted)
    requires Extends(v, v', NewEntries(call.documentId, call.path, call.chunkIds, |call.chunkIds|))
    ensures var ids := ToSet(call.chunkIds);
            Accounted(db, Delete(v', ids, call.cleanupFault), undeleted + Leftover(v', ids, call.cleanupFault))
  {
    NewEntryIds(call);
  }

  ghost predicate Drawn(h: History, call: ImportCall) {
    Allowed(h, ImportOp(call)) && forall id :: !HasPath(h.world.working, id, call.path)
  }

  lemma CommittedInvariant(config: Config, h: History, call: ImportCall)
    requires config.batchSize >= 1 && Invariant(h) && Drawn(h, call)
    requires AddedStore(config, h.world.store, call).1
    ensures var db := Inserted(h.world.working, call);
            Invariant(History(World(db, db, AddedStore(config, h.world.store, call).0), h.undeleted,
                              h.used + {call.documentId} + ToSet(call.chunkIds)))
  {
    var v := h.world.store.vectors;
    AddAllExtends(config, h.world.store, call);
    AddedAccounted(h.world.working, v, h.undeleted, call, AddedStore(config, h.world.store, call).0.vectors);
    InsertedSound(h.world.working, call);
    InsertedKeys(h.world.working, call);
  }

  lemma RolledBackInvariant(config: Config, h: History, call: ImportCall)
    requires config.batchSize >= 1 && Invariant(h) && Drawn(h, call)
    ensures var store := AddedStore(config, h.world.store, call).0;
            var ids := ToSet(call.chunkIds);
            Invariant(History(World(h.world.committed, h.world.committed,
                                    store.(vectors := Delete(store.vectors, ids, call.cleanupFault))),
                              h.undeleted + Leftover(store.vectors, ids, call.cleanupFault),
                              h.used + {call.documentId} + ids))
  {
    var v := h.world.store.vectors;
    AddAllExtends(config, h.world.store, call);
    NewEntryIds(call);
    CleanedAccounted(h.world.committed, v, h.undeleted, call, AddedStore(config, h.world.store, call).0.vectors);
  }

  lemma ImportInvariant(config: Config, h: History, call: ImportCall)
    requires Ready(config, h, ImportOp(call))
    ensures Invariant(Next(config, h, ImportOp(call)))
  {
    if call.pieces != [] {
      ForgetPathInvariant(h, call.path, call.deleteFault);
      var h1 := ForgetPath(h, call.path, call.deleteFault);
      if AddedStore(config, h1.world.store, call).1 && !call.commitFails {
        CommittedInvariant(config, h1, call);
      } else {
        RolledBackInvariant(config, h1, call);
      }
    }
  }

  // ---- Deleting and re-embedding ----

  lemma CommitInvariant(h: History)
    requires Invariant(h)
    ensures Invariant(h.(world := h.world.(committed := h.world.working)))
  {
  }

  lemma RemoveInvariant(config: Config, h: History, call: DeleteCall)
    requires Ready(config, h, RemoveOp(call))
    ensures Invariant(Next(config, h, RemoveOp(call)))
  {
    var found := FindForDelete(h.world.working, call);
    if found.Some? {
      ForgetInvariant(h, found.value, call.fault);
      CommitInvariant(History(Forget(h.world, found.value, call.fault), h.undeleted + RemoveLeftover(h.world, call),
          h.used));
    } else {
      assert h.undeleted + {} == h.undeleted;
    }
  }

  lemma ListedIds(db: Database, order: seq<Id>)
    requires IsListing(order, db)
    ensures DistinctIds(Listed(db, order)) && Ids(Listed(db, order)) == ToSet(order)
  {
    var entries := Listed(db, order);
    forall id | id in order
      ensures id in Ids(entries)
    {
      var i :| 0 <= i < |order| && order[i] == id;
      assert entries[i].id == id && entries[i] in entries;
    }
  }

  lemma ListedBacked(db: Database, order: seq<Id>, e: Entry)
    requires IsListing(order, db) && e in Listed(db, order)
    ensures Backed(db, e.id, e.meta)
  {
    var entries := Listed(db, order);
    var i :| 0 <= i < |entries| && entries[i] == e;
    assert order[i] in order;
  }

  /**
   When a rebuild is due the collection is left alone only by a call that fails before the drop has
   effect; from then on it holds nothing but vectors of the chunks the join listed, wherever the rebuild
   stops, and all of them under the new label when it succeeds. No vector changes when none is due.
  */
  lemma RebuiltExtends(c: Collection, db: Database, call: ReembedCall)
    requires IsListing(call.order, db)
    ensures var (c', ok) := EnsureConsistent(c, call.model, Listed(db, call.order), call.labelFails, call.fault);
            MustRebuild(c, call.model, Listed(db, call.order)) ==>
              if call.fault.EncodeFails? || call.fault == DropFails(false) then c' == c && !ok
              else
                && Extends(map[], c'.vectors, Listed(db, call.order))
                && (ok ==> c'.vectors.Keys == ToSet(call.order) && c'.stored == Model(call.model))
    ensures var (c', ok) := EnsureConsistent(c, call.model, Listed(db, call.order), call.labelFails, call.fault);
            !MustRebuild(c, call.model, Listed(db, call.order)) ==> c'.vectors == c.vectors
  {
    ListedIds(db, call.order);
    var entries := Listed(db, call.order);
    assert entries[0..] == entries;
    var none: Vectors := map[];
    if call.fault.Batches? {
      AddBatchesExtends(none, entries, 0, REBUILD_BATCH, call.fault.faults, 0);
    }
  }

  lemma RebuiltAccounted(db: Database, whole: Database, order: seq<Id>, v: Vectors, undeleted: set<Id>)
    requires IsListing(order, db) && Within(db, whole) && Extends(map[], v, Listed(db, order))
    ensures Accounted(db, v, undeleted) && Accounted(whole, v, undeleted)
    ensures v.Keys <= db.chunks.Keys
  {
    forall id | id in v
      ensures Backed(db, id, v[id])
    {
      ListedBacked(db, order, Entry(id, v[id]));
    }
  }

  lemma ReembedInvariant(config: Config, h: History, call: ReembedCall)
    requires Ready(config, h, ReembedOp(call))
    ensures Invariant(Next(config, h, ReembedOp(call)))
  {
    var db := h.world.working;
    RebuiltExtends(h.world.store, db, call);
    var v := Reembed(h.world, call).0.store.vectors;
    if v != h.world.store.vectors {
      RebuiltAccounted(db, h.world.committed, call.order, v, h.undeleted);
      assert db.chunks.Keys <= h.world.committed.chunks.Keys;
    }
  }

  // ---- Every run ----

  ghost predicate Initial(h: History) {
    h == History(World(Database(map[], map[]), Database(map[], map[]), Collection(map[], NoModel)), {}, {})
  }

  /** The i-th operation draws fresh uuids and does what the program does from any state the invariant allows. */
  ghost predicate StepAt(config: Config, hs: seq<History>, ops: seq<Operation>, i: nat) {
    && i < |ops| && i + 1 < |hs| && Allowed(hs[i], ops[i])
    && (Ready(config, hs[i], ops[i]) ==> hs[i + 1] == Next(config, hs[i], ops[i]))
  }

  /** A run from empty stores. */
  ghost predicate IsRun(config: Config, hs: seq<History>, ops: seq<Operation>) {
    && |hs| == |ops| + 1 && Initial(hs[0]) && config.batchSize >= 1
    && forall i | 0 <= i < |ops| :: StepAt(config, hs, ops, i)
  }

  lemma StepInvariant(config: Config, h: History, op: Operation)
    requires Ready(config, h, op)
    ensures Invariant(Next(config, h, op))
  {
    match op
    case ImportOp(call) => ImportInvariant(config, h, call);
    case RemoveOp(call) => RemoveInvariant(config, h, call);
    case ReembedOp(call) => ReembedInvariant(config, h, call);
  }

  lemma TakesStep(config: Config, hs: seq<History>, ops: seq<Operation>, i: nat)
    requires IsRun(config, hs, ops) && i < |ops| && Invariant(hs[i])
    ensures Ready(config, hs[i], ops[i]) && hs[i + 1] == Next(config, hs[i], ops[i])
  {
    assert StepAt(config, hs, ops, i);
  }

  lemma {:induction false} RunInvariant(config: Config, hs: seq<History>, ops: seq<Operation>, i: nat)
    requires IsRun(config, hs, ops) && i <= |ops|
    ensures Invariant(hs[i])
  {
    if i > 0 {
      RunInvariant(config, hs, ops, i - 1);
      TakesStep(config, hs, ops, i - 1);
      StepInvariant(config, hs[i - 1], ops[i - 1]);
    }
  }

  /**
   Over every run, whatever fails: each vector id is a chunk id in committed SQL under the same
   document, at the same position and path, or its vector delete failed.
  */
  lemma EveryVectorAccounted(config: Config, hs: seq<History>, ops: seq<Operation>, i: nat, id: Id)
    requires IsRun(config, hs, ops) && i <= |ops|
    requires id in hs[i].world.store.vectors && id !in hs[i].undeleted
    ensures var db, meta := hs[i].world.committed, hs[i].world.store.vectors[id];
            && IsChunk(db, id, meta.documentId, meta.chunkIndex)
            && HasPath(db, meta.documentId, meta.sourcePath)
  {
    RunInvariant(config, hs, ops, i);
    assert Backed(hs[i].world.committed, id, hs[i].world.store.vectors[id]);
  }

  /**
   Every reachable committed state has one document per path, no stray chunk, and chunks numbered from 0
   without gaps.
  */
  lemma EveryCommittedStateSound(config: Config, hs: seq<History>, ops: seq<Operation>, i: nat)
    requires IsRun(config, hs, ops) && i <= |ops|
    ensures UniquePaths(hs[i].world.committed) && Numbered(hs[i].world.committed)
  {
    RunInvariant(config, hs, ops, i);
  }

  // ---- The label of the collection ----

  /** A collection that holds vectors says which model made them. */
  ghost predicate Labelled(c: Collection) {
    c.vectors.Keys == {} || c.stored.Model?
  }

  lemma AddAllLabelled(c: Collection, model: string, entries: seq<Entry>, size: nat, labelFails: bool,
                       faults: seq<Fault>)
    requires size >= 1 && Labelled(c)
    ensures Labelled(AddAll(c, model, entries, size, labelFails, faults).0)
  {
  }

  lemma ImportLabelled(config: Config, w: World, call: ImportCall)
    requires config.batchSize >= 1 && UniquePaths(w.working) && FreshIds(w, call) && Labelled(w.store)
    ensures Labelled(Import(config, w, call).0.store)
  {
    var w1 := WithoutPath(w, call.path, call.deleteFault);
    assert w1.store.stored == w.store.stored && w1.store.vectors.Keys <= w.store.vectors.Keys;
    var entries := NewEntries(call.documentId, call.path, call.chunkIds, |call.chunkIds|);
    AddAllLabelled(w1.store, config.model, entries, config.batchSize, call.labelFails, call.addFaults);
  }

  lemma StepLabelled(config: Config, h: History, op: Operation)
    requires Ready(config, h, op) && Labelled(h.world.store)
    ensures Labelled(Next(config, h, op).world.store)
  {
    match op
    case ImportOp(call) => ImportLabelled(config, h.world, call);
    case RemoveOp(call) => RemoveLabelled(h.world, call);
    case ReembedOp(call) => ReembedLabelled(h.world, call);
  }

  lemma RemoveLabelled(w: World, call: DeleteCall)
    requires UniquePaths(w.working) && Labelled(w.store)
    ensures Labelled(Remove(w, call).0.store)
  {
    assert Remove(w, call).0.store.vectors.Keys <= w.store.vectors.Keys;
  }

  lemma ReembedLabelled(w: World, call: ReembedCall)
    requires IsListing(call.order, w.working) && Labelled(w.store)
    ensures Labelled(Reembed(w, call).0.store)
  {
  }

  lemma NextLabelled(config: Config, hs: seq<History>, ops: seq<Operation>, i: nat)
    requires IsRun(config, hs, ops) && i < |ops| && Labelled(hs[i].world.store)
    ensures Labelled(hs[i + 1].world.store)
  {
    RunInvariant(config, hs, ops, i);
    TakesStep(config, hs, ops, i);
    StepLabelled(config, hs[i], ops[i]);
  }

  /** Over every run, whatever fails, vectors are never left in a collection without a model label. */
  lemma {:induction false} EveryCollectionLabelled(config: Config, hs: seq<History>, ops: seq<Operation>, i: nat)
    requires IsRun(config, hs, ops) && i <= |ops|
    ensures Labelled(hs[i].world.store)
  {
    if i > 0 {
      EveryCollectionLabelled(config, hs, ops, i - 1);
      NextLabelled(config, hs, ops, i - 1);
    }
  }

  // ---- Import is all or nothing on SQL ----

  /** The row belongs to a document at the path. */
  ghost predicate AtPath(db: Database, id: Id, path: string) {
    id in db.chunks && HasPath(db, db.chunks[id].documentId, path)
  }

  /** The document at the path, if any, has made way for the new one with its title, and nothing else is changed. */
  ghost predicate ReplacesDocument(before: Database, after: Database, call: ImportCall) {
    && HasPath(after, call.documentId, call.path) && after.documents[call.documentId].title == call.title
    && (forall id | id != call.documentId :: id in after.documents
         <==> id in before.documents && !HasPath(before, id, call.path))
    && (forall id | id != call.documentId && id in after.documents ::
         id in before.documents && after.documents[id] == before.documents[id])
  }

  /** The same of the chunks: the new ones are numbered in order and have the texts and pages imported. */
  ghost predicate ReplacesChunks(before: Database, after: Database, call: ImportCall) {
    && |call.chunkIds| == |call.pieces|
    && (forall i | 0 <= i < |call.chunkIds| ::
          && call.chunkIds[i] in after.chunks
          && after.chunks[call.chunkIds[i]] == Chunk(call.documentId, i, call.pieces[i].page, call.pieces[i].content))
    && (forall id | id !in call.chunkIds :: id in after.chunks
         <==> id in before.chunks && !AtPath(before, id, call.path))
    && (forall id | id !in call.chunkIds && id in after.chunks ::
         id in before.chunks && after.chunks[id] == before.chunks[id])
  }

  ghost predicate Replaces(before: Database, after: Database, call: ImportCall) {
    ReplacesDocument(before, after, call) && ReplacesChunks(before, after, call)
  }

  lemma InsertedReplaces(w: World, call: ImportCall)
    requires Sound(w.working) && FreshIds(w, call)
    ensures Replaces(w.working, Inserted(WithoutPath(w, call.path, call.deleteFault).working, call), call)
  {
    var db := WithoutPath(w, call.path, call.deleteFault).working;
    var existing := FindByPath(w.working, call.path);
    forall i | 0 <= i < |call.chunkIds|
      ensures call.chunkIds[i] in Inserted(db, call).chunks
      ensures Inserted(db, call).chunks[call.chunkIds[i]] == Row(call.documentId, call.pieces, i)
    {
      ChunkRowAt(call.documentId, call.pieces, call.chunkIds, |call.chunkIds|, i);
    }
    forall id | id !in call.chunkIds
      ensures id in Inserted(db, call).chunks <==> id in w.working.chunks && !AtPath(w.working, id, call.path)
      ensures id in Inserted(db, call).chunks ==> Inserted(db, call).chunks[id] == w.working.chunks[id]
    {
      InsertedKeepsRow(db, call, id);
      KeptRow(w, call, id);
    }
  }

  lemma KeptRow(w: World, call: ImportCall, id: Id)
    requires Sound(w.working)
    ensures var db := WithoutPath(w, call.path, call.deleteFault).working;
            && (id in db.chunks <==> id in w.working.chunks && !AtPath(w.working, id, call.path))
            && (id in db.chunks ==> db.chunks[id] == w.working.chunks[id])
  {
  }

  /**
   An import that fails commits nothing, and if it got as far as SQL gives up what was pending there. One
   that succeeds commits the working state with the document at the path replaced.
  */
  lemma ImportAllOrNothing(config: Config, w: World, call: ImportCall)
    requires config.batchSize >= 1 && Sound(w.working) && FreshIds(w, call)
    ensures var (w', ok) := Import(config, w, call);
            if ok then w'.committed == w'.working && Replaces(w.working, w'.committed, call)
            else w'.committed == w.committed && w'.working == if call.pieces == [] then w.working else w.committed
  {
    if Import(config, w, call).1 {
      InsertedReplaces(w, call);
    }
  }

  /** Rows of other documents whose deletion is still to be committed. */
  ghost predicate PendingElsewhere(w: World, path: string) {
    || (exists id :: id in w.committed.documents && id !in w.working.documents && !HasPath(w.committed, id, path))
    || (exists id :: id in w.committed.chunks && id !in w.working.chunks && !AtPath(w.committed, id, path))
  }

  lemma DocumentFromWithin(before: Database, whole: Database, after: Database, call: ImportCall)
    requires Within(before, whole) && ReplacesDocument(before, after, call) && call.documentId !in whole.documents
    ensures ReplacesDocument(whole, after, call) <==>
            forall id | id in whole.documents && id !in before.documents :: HasPath(whole, id, call.path)
  {
  }

  lemma SameAtPath(before: Database, whole: Database, id: Id, path: string)
    requires Numbered(before) && Within(before, whole) && id in before.chunks
    ensures AtPath(before, id, path) <==> AtPath(whole, id, path)
  {
  }

  lemma ChunksFromWithin(before: Database, whole: Database, after: Database, call: ImportCall)
    requires Within(before, whole) && ReplacesChunks(before, after, call)
    requires forall id | id in before.chunks :: AtPath(before, id, call.path) <==> AtPath(whole, id, call.path)
    requires forall id | id in call.chunkIds :: id !in whole.chunks
    ensures ReplacesChunks(whole, after, call) <==>
            forall id | id in whole.chunks && id !in before.chunks :: AtPath(whole, id, call.path)
  {
  }

  lemma ReplacesFromWithin(before: Database, whole: Database, after: Database, call: ImportCall)
    requires Numbered(before) && Within(before, whole) && Replaces(before, after, call)
    requires call.documentId !in whole.documents && forall id | id in call.chunkIds :: id !in whole.chunks
    ensures ReplacesDocument(whole, after, call) <==>
            forall id | id in whole.documents && id !in before.documents :: HasPath(whole, id, call.path)
    ensures ReplacesChunks(whole, after, call) <==>
            forall id | id in whole.chunks && id !in before.chunks :: AtPath(whole, id, call.path)
  {
    forall id | id in before.chunks
      ensures AtPath(before, id, call.path) <==> AtPath(whole, id, call.path)
    {
      SameAtPath(before, whole, id, call.path);
    }
    DocumentFromWithin(before, whole, after, call);
    ChunksFromWithin(before, whole, after, call);
  }

  /**
   Against what was committed before, a successful import replaces the document at its path and nothing
   else if and only if no row of another document was waiting to be deleted by a commit that had failed.
  */
  lemma ImportReplacesIff(config: Config, h: History, call: ImportCall)
    requires Ready(config, h, ImportOp(call)) && Import(config, h.world, call).1
    ensures Replaces(h.world.committed, Import(config, h.world, call).0.committed, call)
            <==> !PendingElsewhere(h.world, call.path)
  {
    var w := h.world;
    ImportAllOrNothing(config, w, call);
    ReplacesFromWithin(w.working, w.committed, Import(config, w, call).0.committed, call);
  }

  // ---- Two runs ----

  /** An import of one chunk during which nothing fails. */
  function PlainImport(path: string, documentId: Id, chunkId: Id): ImportCall {
    ImportCall(path, "", [Piece("x", None)], documentId, [chunkId], Works, false, [], false, Works)
  }

  lemma PlainImportWorks(config: Config, h: History, path: string, documentId: Id, chunkId: Id)
    requires Ready(config, h, ImportOp(PlainImport(path, documentId, chunkId)))
    ensures var (w', ok) := Import(config, h.world, PlainImport(path, documentId, chunkId));
            && ok && Replaces(h.world.working, w'.committed, PlainImport(path, documentId, chunkId))
            && w'.working == w'.committed
  {
    var call := PlainImport(path, documentId, chunkId);
    NothingFailsAdds(config, WithoutPath(h.world, path, Works).store, call);
    ImportAllOrNothing(config, h.world, call);
  }

  lemma RunAppend(config: Config, hs: seq<History>, ops: seq<Operation>, op: Operation)
    requires IsRun(config, hs, ops) && Ready(config, hs[|ops|], op)
    ensures IsRun(config, hs + [Next(config, hs[|ops|], op)], ops + [op])
  {
    var next := Next(config, hs[|ops|], op);
    forall i | 0 <= i <= |ops|
      ensures StepAt(config, hs + [next], ops + [op], i)
    {
      if i < |ops| {
        assert StepAt(config, hs, ops, i);
        StepKept(config, hs, ops, next, op, i);
      }
    }
  }

  lemma StepKept(config: Config, hs: seq<History>, ops: seq<Operation>, next: History, op: Operation, i: nat)
    requires |hs| == |ops| + 1 && StepAt(config, hs, ops, i)
    ensures StepAt(config, hs + [next], ops + [op], i)
  {
  }

  function Empty(): History {
    History(World(Database(map[], map[]), Database(map[], map[]), Collection(map[], NoModel)), {}, {})
  }

  lemma EmptyRun(config: Config)
    requires config.batchSize >= 1
    ensures IsRun(config, [Empty()], []) && Invariant(Empty()) && InStep(Empty().world)
  {
  }

  lemma FirstReady(config: Config, documentId: Id, chunkId: Id)
    requires config.batchSize >= 1
    ensures Ready(config, Empty(), ImportOp(PlainImport("a", documentId, chunkId)))
  {
  }

  /** A first import into empty stores. */
  lemma FirstImport(config: Config, documentId: Id, chunkId: Id) returns (h: History)
    requires config.batchSize >= 1
    ensures IsRun(config, [Empty(), h], [ImportOp(PlainImport("a", documentId, chunkId))])
    ensures Invariant(h) && InStep(h.world) && h.undeleted == {} && h.used == {documentId, chunkId}
    ensures HasPath(h.world.working, documentId, "a") && AtPath(h.world.working, chunkId, "a")
  {
    var call := PlainImport("a", documentId, chunkId);
    EmptyRun(config);
    FirstReady(config, documentId, chunkId);
    h := Next(config, Empty(), ImportOp(call));
    RunAppend(config, [Empty()], [], ImportOp(call));
    assert [Empty()] + [h] == [Empty(), h] && [] + [ImportOp(call)] == [ImportOp(call)];
    StepInvariant(config, Empty(), ImportOp(call));
    StepInStep(config, Empty(), ImportOp(call));
    PlainImportWorks(config, Empty(), "a", documentId, chunkId);
    assert call.chunkIds[0] == chunkId;
  }

  lemma RemoveReady(config: Config, h: History, call: DeleteCall)
    requires config.batchSize >= 1 && Invariant(h)
    ensures Ready(config, h, RemoveOp(call))
  {
  }

  /** Deleting the document with a commit that fails. */
  lemma FailedRemoval(config: Config, h: History, documentId: Id, call: DeleteCall) returns (h': History)
    requires config.batchSize >= 1 && Invariant(h) && h.world.committed == h.world.working
    requires call == DeleteCall("a", None, Works, true) && HasPath(h.world.working, documentId, "a")
    ensures Ready(config, h, RemoveOp(call)) && h' == Next(config, h, RemoveOp(call)) && Invariant(h')
    ensures !Remove(h.world, call).1 && h'.used == h.used
    ensures HasPath(h'.world.committed, documentId, "a") && documentId !in h'.world.working.documents
  {
    RemoveReady(config, h, call);
    h' := Next(config, h, RemoveOp(call));
    StepInvariant(config, h, RemoveOp(call));
    assert FindByPath(h.world.working, "a") == Some(documentId);
  }

  /** A document imported, then deleted with a commit that fails. */
  lemma PendingDeletion(config: Config, a: Id, chunkId: Id) returns (h1: History, h2: History)
    requires config.batchSize >= 1
    ensures var remove := DeleteCall("a", None, Works, true);
            && IsRun(config, [Empty(), h1, h2], [ImportOp(PlainImport("a", a, chunkId)), RemoveOp(remove)])
            && Invariant(h1) && !Remove(h1.world, remove).1
    ensures Invariant(h2) && h2.used == {a, chunkId}
    ensures HasPath(h2.world.committed, a, "a") && a !in h2.world.working.documents
  {
    var add, remove := ImportOp(PlainImport("a", a, chunkId)), DeleteCall("a", None, Works, true);
    h1 := FirstImport(config, a, chunkId);
    h2 := FailedRemoval(config, h1, a, remove);
    RunAppend(config, [Empty(), h1], [add], RemoveOp(remove));
    assert [Empty(), h1] + [h2] == [Empty(), h1, h2] && [add] + [RemoveOp(remove)] == [add, RemoveOp(remove)];
  }

  lemma ImportCommitsPending(config: Config, h: History, a: Id, b: Id, chunkId: Id)
    requires Invariant(h) && config.batchSize >= 1 && b !in h.used && chunkId !in h.used && a in h.used
    requires a !in h.world.working.documents
    ensures Ready(config, h, ImportOp(PlainImport("b", b, chunkId)))
    ensures Import(config, h.world, PlainImport("b", b, chunkId)).1
    ensures a !in Next(config, h, ImportOp(PlainImport("b", b, chunkId))).world.committed.documents
  {
    assert Ready(config, h, ImportOp(PlainImport("b", b, chunkId)));
    PlainImportWorks(config, h, "b", b, chunkId);
  }

  /**
   A deletion whose commit failed was answered with an error and is still in the committed state; the next
   import, of another document, commits it along.
  */
  lemma PendingDeletionCommitted(config: Config, a: Id, b: Id, ids: seq<Id>)
        returns (hs: seq<History>, ops: seq<Operation>)
    requires config.batchSize >= 1 && |ids| == 2 && a != b && !(b in ids) && ids[1] != a && ids[1] != ids[0]
    ensures IsRun(config, hs, ops) && |ops| == 3 && Invariant(hs[1]) && Invariant(hs[2])
    ensures ops[1].RemoveOp? && !Remove(hs[1].world, ops[1].deleteCall).1 && HasPath(hs[2].world.committed, a, "a")
    ensures ops[2] == ImportOp(PlainImport("b", b, ids[1])) && Ready(config, hs[2], ops[2])
    ensures Import(config, hs[2].world, PlainImport("b", b, ids[1])).1 && a !in hs[3].world.committed.documents
  {
    var h1, h2 := PendingDeletion(config, a, ids[0]);
    hs, ops := [Empty(), h1, h2], [ImportOp(PlainImport("a", a, ids[0])), RemoveOp(DeleteCall("a", None, Works, true))];
    var add := ImportOp(PlainImport("b", b, ids[1]));
    ImportCommitsPending(config, hs[2], a, b, ids[1]);
    RunAppend(config, hs, ops, add);
    hs, ops := hs + [Next(config, hs[2], add)], ops + [add];
  }

  /**
   Importing a document again, the vector store failing to add the new chunk: SQL still has the old chunk,
   the vectors not.
  */
  lemma FailedReimport(config: Config, a: Id, b: Id, ids: seq<Id>) returns (hs: seq<History>, ops: seq<Operation>)
    requires config.batchSize >= 1 && |ids| == 2 && a != b && !(b in ids) && ids[1] != a && ids[1] != ids[0]
    ensures IsRun(config, hs, ops) && |ops| == 2
    ensures InStep(hs[1].world) && Ready(config, hs[1], ops[1]) && ops[1].ImportOp?
            && !Import(config, hs[1].world, ops[1].importCall).1
    ensures ids[0] in hs[2].world.committed.chunks && ids[0] !in hs[2].world.store.vectors
  {
    var h1 := FirstImport(config, a, ids[0]);
    var again := PlainImport("a", b, ids[1]).(addFaults := [Fails({})]);
    assert Ready(config, h1, ImportOp(again));
    FailingAdd(config, h1, again);
    var h2 := Next(config, h1, ImportOp(again));
    hs, ops := [Empty(), h1], [ImportOp(PlainImport("a", a, ids[0]))];
    RunAppend(config, hs, ops, ImportOp(again));
    hs, ops := hs + [h2], ops + [ImportOp(again)];
    FailedImportLoses(config, h1, again, ids[0]);
  }

  lemma FailingAdd(config: Config, h: History, call: ImportCall)
    requires Ready(config, h, ImportOp(call)) && |call.pieces| == 1 && call.addFaults == [Fails({})]
    ensures !Import(config, h.world, call).1
  {
    var entries := NewEntries(call.documentId, call.path, call.chunkIds, |call.chunkIds|);
    assert BatchEnd(entries, 0, config.batchSize) == 1;
  }

  /** The chunks of the document at the path are the ones whose vectors a failed import loses. */
  lemma FailedImportLoses(config: Config, h: History, call: ImportCall, id: Id)
    requires Ready(config, h, ImportOp(call)) && InStep(h.world) && h.undeleted == {}
    requires !Import(config, h.world, call).1 && call.pieces != []
    requires call.deleteFault.Works? && call.cleanupFault.Works? && AtPath(h.world.working, id, call.path)
    ensures var w := Import(config, h.world, call).0; id in w.committed.chunks && id !in w.store.vectors
  {
    FailedImportVectors(config, h, call);
  }

  // ---- Runs in which nothing fails ----

  ghost predicate NothingFails(op: Operation) {
    match op
    case ImportOp(call) =>
      call.deleteFault.Works? && !call.labelFails && (forall f | f in call.addFaults :: f.Works?) && !call.commitFails
    case RemoveOp(call) => call.fault.Works? && !call.commitFails
    case ReembedOp(call) => !call.labelFails && call.fault.Batches? && forall f | f in call.fault.faults :: f.Works?
  }

  /** The two stores tell the same story. */
  ghost predicate InStep(w: World) {
    w.committed == w.working && w.store.vectors.Keys == w.committed.chunks.Keys
  }

  lemma TargetsAreChunks(db: Database, v: Vectors, documentId: Id)
    requires v.Keys == db.chunks.Keys && Accounted(db, v, {})
    ensures WithDocument(v, documentId) == ChunksOf(db, documentId)
  {
    forall id | id in v
      ensures v[id].documentId == db.chunks[id].documentId
    {
      assert Backed(db, id, v[id]);
    }
  }

  lemma ForgetInStep(h: History, documentId: Id)
    requires Invariant(h) && InStep(h.world) && h.undeleted == {}
    ensures var w' := Forget(h.world, documentId, Works);
            w'.store.vectors.Keys == w'.working.chunks.Keys
    ensures Leftover(h.world.store.vectors, WithDocument(h.world.store.vectors, documentId), Works) == {}
  {
    TargetsAreChunks(h.world.working, h.world.store.vectors, documentId);
  }

  lemma ImportInStep(config: Config, h: History, call: ImportCall)
    requires Ready(config, h, ImportOp(call)) && InStep(h.world) && h.undeleted == {} && NothingFails(ImportOp(call))
    ensures InStep(Next(config, h, ImportOp(call)).world) && Next(config, h, ImportOp(call)).undeleted == {}
  {
    if call.pieces != [] {
      var existing := FindByPath(h.world.working, call.path);
      if existing.Some? {
        ForgetInStep(h, existing.value);
      }
      ForgetPathInvariant(h, call.path, call.deleteFault);
      var h1 := ForgetPath(h, call.path, call.deleteFault);
      AddAllExtends(config, h1.world.store, call);
      NothingFailsAdds(config, h1.world.store, call);
      InsertedKeys(h1.world.working, call);
    }
  }

  lemma NothingFailsAdds(config: Config, store: Collection, call: ImportCall)
    requires config.batchSize >= 1 && NothingFails(ImportOp(call))
    ensures AddedStore(config, store, call).1
  {
    var entries := NewEntries(call.documentId, call.path, call.chunkIds, |call.chunkIds|);
    NoFaultsAddAll(store.vectors, entries, 0, config.batchSize, call.addFaults, 0);
  }

  lemma RemoveInStep(config: Config, h: History, call: DeleteCall)
    requires Ready(config, h, RemoveOp(call)) && InStep(h.world) && h.undeleted == {} && NothingFails(RemoveOp(call))
    ensures InStep(Next(config, h, RemoveOp(call)).world) && Next(config, h, RemoveOp(call)).undeleted == {}
  {
    var found := FindForDelete(h.world.working, call);
    if found.Some? {
      ForgetInStep(h, found.value);
    }
  }

  lemma ReembedInStep(config: Config, h: History, call: ReembedCall)
    requires Ready(config, h, ReembedOp(call)) && InStep(h.world) && h.undeleted == {} && NothingFails(ReembedOp(call))
    ensures InStep(Next(config, h, ReembedOp(call)).world) && Next(config, h, ReembedOp(call)).undeleted == {}
  {
    RebuiltExtends(h.world.store, h.world.working, call);
    RebuildWorks(h.world, call);
    assert ToSet(call.order) == h.world.working.chunks.Keys;
  }

  lemma RebuildWorks(w: World, call: ReembedCall)
    requires IsListing(call.order, w.working) && NothingFails(ReembedOp(call))
    ensures Reembed(w, call).1
  {
    NoFaultsAddAll(map[], Listed(w.working, call.order), 0, REBUILD_BATCH, call.fault.faults, 0);
  }

  lemma StepInStep(config: Config, h: History, op: Operation)
    requires Ready(config, h, op) && NothingFails(op) && InStep(h.world) && h.undeleted == {}
    ensures var h' := Next(config, h, op); InStep(h'.world) && h'.undeleted == {}
  {
    match op
    case ImportOp(call) => ImportInStep(config, h, call);
    case RemoveOp(call) => RemoveInStep(config, h, call);
    case ReembedOp(call) => ReembedInStep(config, h, call);
  }

  /** Over every run in which no call fails, the vector ids are exactly the SQL chunk ids. */
  lemma {:induction false} FaultlessRunsInStep(config: Config, hs: seq<History>, ops: seq<Operation>, i: nat)
    requires IsRun(config, hs, ops) && i <= |ops| && forall k | 0 <= k < i :: NothingFails(ops[k])
    ensures InStep(hs[i].world) && hs[i].undeleted == {}
  {
    if i > 0 {
      FaultlessRunsInStep(config, hs, ops, i - 1);
      RunInvariant(config, hs, ops, i - 1);
      TakesStep(config, hs, ops, i - 1);
      StepInStep(config, hs[i - 1], ops[i - 1]);
    }
  }

  // ---- What a failed re-import costs ----

  /** The vectors left are those of the chunks that did not belong to a document at the path. */
  lemma FailedImportVectors(config: Config, h: History, call: ImportCall)
    requires Ready(config, h, ImportOp(call)) && InStep(h.world) && h.undeleted == {}
    requires !Import(config, h.world, call).1 && call.pieces != []
    requires call.deleteFault.Works? && call.cleanupFault.Works?
    ensures var w := Import(config, h.world, call).0;
            && w.committed == w.working == h.world.committed
            && forall id :: id in w.store.vectors
                 <==> id in h.world.committed.chunks && !AtPath(h.world.committed, id, call.path)
  {
    var db := h.world.working;
    var existing := FindByPath(db, call.path);
    if existing.Some? {
      ForgetInStep(h, existing.value);
    }
    ForgetPathInvariant(h, call.path, call.deleteFault);
    var h1 := ForgetPath(h, call.path, call.deleteFault);
    AddAllExtends(config, h1.world.store, call);
    NewEntryIds(call);
    assert Import(config, h.world, call).0.store.vectors.Keys == h1.world.store.vectors.Keys
           == h1.world.working.chunks.Keys;
    forall id
      ensures id in h1.world.working.chunks <==> id in db.chunks && !AtPath(db, id, call.path)
    {
      KeptRow(h.world, call, id);
    }
  }

  /**
   Rolling SQL back does not bring vectors back. When an import fails at the vector add or at the
   commit, its delete calls having worked, stores that were in step are in step afterwards if and only
   if no chunk belonged to a document at the path being imported.
  */
  lemma FailedImportInStepIff(config: Config, h: History, call: ImportCall)
    requires Ready(config, h, ImportOp(call)) && InStep(h.world) && h.undeleted == {}
    requires !Import(config, h.world, call).1 && call.pieces != []
    requires call.deleteFault.Works? && call.cleanupFault.Works?
    ensures InStep(Import(config, h.world, call).0) <==> forall id :: !AtPath(h.world.committed, id, call.path)
  {
    FailedImportVectors(config, h, call);
  }
}
