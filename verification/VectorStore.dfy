/**
 The vector collection: a finite map from chunk id to metadata, without transactions. Every call to
 it may fail, and a call that fails may have had part of its effect.

 Embeddings, distances and search belong to ChromaDB and are not modelled.
*/
module VectorStore {

  /** A uuid4. Freshness of new ids is a condition on the runs, not a property of the numbers. */
  datatype Id = Uuid(text: string)

  datatype Meta = Meta(documentId: Id, sourcePath: string, chunkIndex: nat)

  type Vectors = map<Id, Meta>

  datatype Entry = Entry(id: Id, meta: Meta)

  /** How one call to the collection goes: a call that fails has taken effect on the given ids only. */
  datatype Fault = Works | Fails(reached: set<Id>)

  datatype ModelName = NoModel | Model(name: string)

  function Reach(fault: Fault, ids: set<Id>): set<Id> {
    if fault.Works? then ids else ids * fault.reached
  }

  // ---- Adding ----

  function Ids(entries: seq<Entry>): set<Id> {
    set e | e in entries :: e.id
  }

  /** The entries one call to the collection stores. */
  function Put(v: Vectors, entries: seq<Entry>, fault: Fault): Vectors
    decreases |entries|
  {
    if entries == [] then v
    else
      var n := |entries| - 1;
      var before := Put(v, entries[..n], fault);
      if fault.Works? || entries[n].id in fault.reached then before[entries[n].id := entries[n].meta] else before
  }

  function FaultAt(faults: seq<Fault>, i: nat): Fault {
    if i < |faults| then faults[i] else Works
  }

  function BatchEnd(entries: seq<Entry>, i: nat, size: nat): (end: nat)
    requires i < |entries| && size >= 1
    ensures i < end <= |entries|
  {
    if |entries| - i <= size then |entries| else i + size
  }

  /**
   Adding the entries from the i-th on in batches, the next call being the given one: the first call that
   fails ends it.
  */
  function AddBatches(v: Vectors, entries: seq<Entry>, i: nat, size: nat, faults: seq<Fault>,
                      call: nat): (r: (Vectors, bool))
    requires size >= 1 && i <= |entries|
    decreases |entries| - i
  {
    if i == |entries| then (v, true)
    else
      var end := BatchEnd(entries, i, size);
      var fault := FaultAt(faults, call);
      var v' := Put(v, entries[i..end], fault);
      if fault.Fails? then (v', false) else AddBatches(v', entries, end, size, faults, call + 1)
  }

  // ---- Deleting ----

  function WithDocument(v: Vectors, documentId: Id): set<Id> {
    set id | id in v && v[id].documentId == documentId
  }

  function Delete(v: Vectors, targets: set<Id>, fault: Fault): Vectors {
    v - Reach(fault, targets)
  }

  // ---- Re-embedding when the model changed ----

  /**
   Where a rebuild stops: before the old collection is dropped, while it is replaced, or among the batches.
   A call to drop or to create the collection may fail after it took effect.
  */
  datatype RebuildFault =
    | EncodeFails
    | DropFails(dropped: bool)
    | CreateFails(created: bool)
    | Batches(faults: seq<Fault>)

  const REBUILD_BATCH := 64

  datatype Collection = Collection(vectors: Vectors, stored: ModelName)

  /** The stored label is another model's, and there is something to embed again. */
  predicate MustRebuild(c: Collection, model: string, entries: seq<Entry>) {
    c.stored != Model(model) && c.stored != NoModel && entries != []
  }

  function EnsureConsistent(c: Collection, model: string, entries: seq<Entry>, labelFails: bool,
                            fault: RebuildFault): (r: (Collection, bool))
  {
    if c.stored == Model(model) then (c, true)
    else if c.stored == NoModel then
      if labelFails then (c, false) else (c.(stored := Model(model)), true)
    else if entries == [] then (c, true)
    else match fault
      case EncodeFails => (c, false)
      case DropFails(dropped) => (if dropped then Collection(map[], NoModel) else c, false)
      case CreateFails(created) => (Collection(map[], if created then Model(model) else NoModel), false)
      case Batches(faults) =>
        var (v, ok) := AddBatches(map[], entries, 0, REBUILD_BATCH, faults, 0);
        (Collection(v, Model(model)), ok)
  }

  function AddAll(c: Collection, model: string, entries: seq<Entry>, size: nat, labelFails: bool,
                  faults: seq<Fault>): (r: (Collection, bool))
    requires size >= 1
  {
    if entries == [] then (c, true)
    else if c.stored == NoModel && labelFails then (c, false)
    else
      var (v, ok) := AddBatches(c.vectors, entries, 0, size, faults, 0);
      (Collection(v, if c.stored == NoModel then Model(model) else c.stored), ok)
  }

  /** The collection as the program holds it; a rebuild replaces it. */
  class ChromaStore {
    var collection: Collection

    constructor ()
      ensures collection == Collection(map[], NoModel)
    {
      collection := Collection(map[], NoModel);
    }

    method StoreBatches(entries: seq<Entry>, size: nat, faults: seq<Fault>) returns (ok: bool)
      requires size >= 1
      modifies this
      ensures (collection.vectors, ok) == AddBatches(old(collection.vectors), entries, 0, size, faults, 0)
      ensures collection.stored == old(collection.stored)
    {
      var i, calls := 0, 0;
      while i < |entries|
        invariant 0 <= i <= |entries|
        invariant collection.stored == old(collection.stored)
        invariant AddBatches(collection.vectors, entries, i, size, faults, calls)
                  == AddBatches(old(collection.vectors), entries, 0, size, faults, 0)
        decreases |entries| - i
      {
        var end := BatchEnd(entries, i, size);
        var fault := FaultAt(faults, calls);
        collection := collection.(vectors := Put(collection.vectors, entries[i..end], fault));
        if fault.Fails? {
          return false;
        }
        i := end;
        calls := calls + 1;
      }
      return true;
    }

    method AddChunks(model: string, entries: seq<Entry>, size: nat, labelFails: bool, faults: seq<Fault>)
          returns (ok: bool)
      requires size >= 1
      modifies this
      ensures (collection, ok) == AddAll(old(collection), model, entries, size, labelFails, faults)
    {
      if entries == [] {
        return true;
      }
      if collection.stored == NoModel {
        if labelFails {
          return false;
        }
        collection := collection.(stored := Model(model));
      }
      ok := StoreBatches(entries, size, faults);
    }

    method DeleteByDocumentId(documentId: Id, fault: Fault) returns (ok: bool)
      modifies this
      ensures collection.vectors
              == Delete(old(collection.vectors), WithDocument(old(collection.vectors), documentId), fault)
      ensures collection.stored == old(collection.stored) && (ok <==> fault.Works?)
    {
      var targets := WithDocument(collection.vectors, documentId);
      collection := collection.(vectors := Delete(collection.vectors, targets, fault));
      ok := fault.Works?;
    }

    method DeleteByIds(ids: set<Id>, fault: Fault) returns (ok: bool)
      modifies this
      ensures collection.vectors == Delete(old(collection.vectors), ids, fault)
      ensures collection.stored == old(collection.stored) && (ok <==> ids == {} || fault.Works?)
    {
      if ids == {} {
        assert Reach(fault, ids) == {};
        return true;
      }
      collection := collection.(vectors := Delete(collection.vectors, ids, fault));
      ok := fault.Works?;
    }

    /** The result is True of a rebuild that was carried through; a call that raises has no result. */
    method EnsureEmbeddingConsistency(model: string, entries: seq<Entry>, labelFails: bool, fault: RebuildFault)
      returns (ok: bool, rebuilt: bool)
      modifies this
      ensures (collection, ok) == EnsureConsistent(old(collection), model, entries, labelFails, fault)
      ensures rebuilt <==> ok && MustRebuild(old(collection), model, entries)
    {
      if collection.stored == Model(model) {
        return true, false;
      }
      if collection.stored == NoModel {
        if labelFails {
          return false, false;
        }
        collection := collection.(stored := Model(model));
        return true, false;
      }
      if entries == [] {
        return true, false;
      }
      if fault.EncodeFails? {
        return false, false;
      }
      if fault == DropFails(false) {
        return false, false;
      }
      if fault.DropFails? {
        collection := Collection(map[], NoModel);
        return false, false;
      }
      if fault.CreateFails? {
        collection := Collection(map[], if fault.created then Model(model) else NoModel);
        return false, false;
      }
      collection := Collection(map[], Model(model));
      ok := StoreBatches(entries, REBUILD_BATCH, fault.faults);
      rebuilt := ok;
    }
  }

  // ---- What the batched calls guarantee, whatever fails ----

  ghost predicate DistinctIds(entries: seq<Entry>) {
    forall i, j | 0 <= i < j < |entries| :: entries[i].id != entries[j].id
  }

  /** Nothing but the given entries has been added, and nothing else changed. */
  ghost predicate Extends(v: Vectors, v': Vectors, entries: seq<Entry>) {
    && v.Keys <= v'.Keys
    && (forall id | id in v' && id !in Ids(entries) :: id in v && v'[id] == v[id])
    && (forall id | id in v' && id in Ids(entries) && id !in v :: Entry(id, v'[id]) in entries)
  }

  lemma {:induction false} PutExtends(v: Vectors, entries: seq<Entry>, fault: Fault)
    requires Ids(entries) !! v.Keys
    ensures Extends(v, Put(v, entries, fault), entries)
    ensures fault.Works? ==> Put(v, entries, fault).Keys == v.Keys + Ids(entries)
  {
    if entries != [] {
      var n := |entries| - 1;
      assert entries == entries[..n] + [entries[n]];
      assert Ids(entries) == Ids(entries[..n]) + {entries[n].id} by {
        assert forall e :: e in entries <==> e in entries[..n] || e == entries[n];
      }
      PutExtends(v, entries[..n], fault);
    }
  }

  lemma IdsSplit(entries: seq<Entry>, n: nat)
    requires n <= |entries|
    ensures Ids(entries) == Ids(entries[..n]) + Ids(entries[n..])
    ensures DistinctIds(entries) ==> Ids(entries[..n]) !! Ids(entries[n..])
  {
    assert entries == entries[..n] + entries[n..];
    assert forall e :: e in entries <==> e in entries[..n] || e in entries[n..];
    if DistinctIds(entries) {
      forall a, b | a in entries[..n] && b in entries[n..]
        ensures a.id != b.id
      {
        var i :| 0 <= i < n && entries[i] == a;
        var j :| 0 <= j < |entries| - n && entries[n..][j] == b;
        assert entries[n + j] == b;
      }
    }
  }

  lemma FirstBatchExtends(v: Vectors, entries: seq<Entry>, n: nat, fault: Fault)
    requires n <= |entries| && DistinctIds(entries) && Ids(entries) !! v.Keys
    ensures Extends(v, Put(v, entries[..n], fault), entries[..n])
    ensures fault.Works? ==> Put(v, entries[..n], fault).Keys == v.Keys + Ids(entries[..n])
    ensures fault.Works? ==> Ids(entries[n..]) !! Put(v, entries[..n], fault).Keys
    ensures DistinctIds(entries[n..])
  {
    IdsSplit(entries, n);
    PutExtends(v, entries[..n], fault);
  }

  /**
   Adding new ids in batches only ever adds entries that were asked for; if no call fails it adds them all.
  */
  lemma {:induction false} AddBatchesExtends(v: Vectors, entries: seq<Entry>, i: nat, size: nat, faults: seq<Fault>,
                                             call: nat)
    requires size >= 1 && i <= |entries| && DistinctIds(entries[i..]) && Ids(entries[i..]) !! v.Keys
    ensures var (v', ok) := AddBatches(v, entries, i, size, faults, call);
            Extends(v, v', entries[i..]) && (ok ==> v'.Keys == v.Keys + Ids(entries[i..]))
    decreases |entries| - i
  {
    if i < |entries| {
      var end := BatchEnd(entries, i, size);
      var fault := FaultAt(faults, call);
      var rest, n := entries[i..], end - i;
      var v1 := Put(v, rest[..n], fault);
      assert entries[i..end] == rest[..n] && entries[end..] == rest[n..];
      FirstBatchExtends(v, rest, n, fault);
      if fault.Works? {
        AddBatchesExtends(v1, entries, end, size, faults, call + 1);
        BatchThenRest(v, v1, AddBatches(v1, entries, end, size, faults, call + 1), rest, n);
      } else {
        ExtendsTwice(v, v1, v1, rest, n);
      }
    }
  }

  lemma BatchThenRest(v: Vectors, v1: Vectors, r: (Vectors, bool), entries: seq<Entry>, n: nat)
    requires n <= |entries| && DistinctIds(entries) && Ids(entries) !! v.Keys
    requires Extends(v, v1, entries[..n]) && v1.Keys == v.Keys + Ids(entries[..n])
    requires Extends(v1, r.0, entries[n..]) && (r.1 ==> r.0.Keys == v1.Keys + Ids(entries[n..]))
    ensures Extends(v, r.0, entries) && (r.1 ==> r.0.Keys == v.Keys + Ids(entries))
  {
    ExtendsTwice(v, v1, r.0, entries, n);
    IdsSplit(entries, n);
  }

  lemma ExtendsTwice(v: Vectors, v1: Vectors, v2: Vectors, entries: seq<Entry>, n: nat)
    requires n <= |entries| && DistinctIds(entries) && Ids(entries) !! v.Keys
    requires Extends(v, v1, entries[..n]) && Extends(v1, v2, entries[n..])
    ensures Extends(v, v2, entries)
  {
    IdsSplit(entries, n);
    forall id | id in v2 && id in Ids(entries) && id !in v
      ensures Entry(id, v2[id]) in entries
    {
      if id in v1 {
        assert Entry(id, v1[id]) in entries[..n];
        assert id !in Ids(entries[n..]);
      } else {
        assert Entry(id, v2[id]) in entries[n..];
      }
    }
  }

  lemma {:induction false} NoFaultsAddAll(v: Vectors, entries: seq<Entry>, i: nat, size: nat, faults: seq<Fault>,
                                          call: nat)
    requires size >= 1 && i <= |entries| && forall f | f in faults :: f.Works?
    ensures AddBatches(v, entries, i, size, faults, call).1
    decreases |entries| - i
  {
    if i < |entries| {
      var end := BatchEnd(entries, i, size);
      NoFaultsAddAll(Put(v, entries[i..end], FaultAt(faults, call)), entries, end, size, faults, call + 1);
    }
  }

  // ---- Retrying a rebuild ----

  lemma {:induction false} PutKeys(v: Vectors, entries: seq<Entry>, fault: Fault)
    ensures Put(v, entries, fault).Keys == v.Keys + Reach(fault, Ids(entries))
  {
    if entries != [] {
      var n := |entries| - 1;
      assert entries == entries[..n] + [entries[n]];
      assert Ids(entries) == Ids(entries[..n]) + {entries[n].id} by {
        assert forall e :: e in entries <==> e in entries[..n] || e == entries[n];
      }
      PutKeys(v, entries[..n], fault);
    }
  }

  /** The first of the calls, from the given one on, that fails. */
  function FirstFailure(faults: seq<Fault>, call: nat): (j: nat)
    ensures j >= call && (j < |faults| ==> faults[j].Fails?)
    decreases |faults| - call
  {
    if call < |faults| && faults[call].Works? then FirstFailure(faults, call + 1) else call
  }

  /** The entries of the given batch. */
  function Batch(entries: seq<Entry>, j: nat): seq<Entry>
    requires REBUILD_BATCH * j < |entries|
  {
    entries[REBUILD_BATCH * j..BatchEnd(entries, REBUILD_BATCH * j, REBUILD_BATCH)]
  }

  /** One batch that works is followed by the rest. */
  lemma IdsOfBatches(entries: seq<Entry>, a: nat, b: nat, c: nat)
    requires a <= b <= c <= |entries|
    ensures Ids(entries[a..b]) + Ids(entries[b..c]) == Ids(entries[a..c])
  {
    assert entries[a..c] == entries[a..b] + entries[b..c];
    assert forall e :: e in entries[a..c] <==> e in entries[a..b] || e in entries[b..c];
  }

  /** The given ids, those of the batches before the first failing call, and of its own batch what it reached. */
  ghost function StoredIds(ids: set<Id>, entries: seq<Entry>, faults: seq<Fault>, call: nat): set<Id>
    requires FirstFailure(faults, call) < |faults| && REBUILD_BATCH * FirstFailure(faults, call) < |entries|
  {
    var j := FirstFailure(faults, call);
    ids + Ids(entries[REBUILD_BATCH * call..REBUILD_BATCH * j]) + Reach(faults[j], Ids(Batch(entries, j)))
  }

  lemma StoredNext(ids: set<Id>, entries: seq<Entry>, faults: seq<Fault>, call: nat)
    requires FirstFailure(faults, call) < |faults| && REBUILD_BATCH * FirstFailure(faults, call) < |entries|
    requires faults[call].Works?
    ensures REBUILD_BATCH * (call + 1) < |entries|
    ensures StoredIds(ids + Ids(Batch(entries, call)), entries, faults, call + 1)
            == StoredIds(ids, entries, faults, call)
  {
    IdsOfBatches(entries, REBUILD_BATCH * call, REBUILD_BATCH * (call + 1), REBUILD_BATCH * FirstFailure(faults, call));
  }

  lemma BatchStep(v: Vectors, entries: seq<Entry>, faults: seq<Fault>, call: nat)
    requires REBUILD_BATCH * call < |entries|
    ensures var start, fault, v1 := REBUILD_BATCH * call, FaultAt(faults, call), Put(v, Batch(entries, call),
                FaultAt(faults, call));
            AddBatches(v, entries, start, REBUILD_BATCH, faults, call)
            == if fault.Fails? then (v1, false)
               else AddBatches(v1, entries, BatchEnd(entries, start, REBUILD_BATCH), REBUILD_BATCH, faults, call + 1)
  {
  }

  lemma NoBatchLeft(v: Vectors, entries: seq<Entry>, faults: seq<Fault>, call: nat)
    ensures AddBatches(v, entries, |entries|, REBUILD_BATCH, faults, call) == (v, true)
  {
  }

  /** The batches before the first failing call are stored, and of its own batch what the call reached. */
  lemma {:induction false} BatchesStop(v: Vectors, entries: seq<Entry>, faults: seq<Fault>, call: nat)
    requires REBUILD_BATCH * call < |entries|
    ensures var (v', ok) := AddBatches(v, entries, REBUILD_BATCH * call, REBUILD_BATCH, faults, call);
            var j := FirstFailure(faults, call);
            && (ok <==> j >= |faults| || REBUILD_BATCH * j >= |entries|)
            && (!ok ==> v'.Keys == StoredIds(v.Keys, entries, faults, call))
    decreases |entries| - call
  {
    var end := BatchEnd(entries, REBUILD_BATCH * call, REBUILD_BATCH);
    var fault := FaultAt(faults, call);
    var v1 := Put(v, Batch(entries, call), fault);
    BatchStep(v, entries, faults, call);
    PutKeys(v, Batch(entries, call), fault);
    if fault.Fails? {
      StoredNone(v.Keys, entries, faults, call);
    } else if end < |entries| {
      BatchesStop(v1, entries, faults, call + 1);
      var j := FirstFailure(faults, call);
      if j < |faults| && REBUILD_BATCH * j < |entries| {
        StoredNext(v.Keys, entries, faults, call);
      }
    } else {
      NoBatchLeft(v1, entries, faults, call + 1);
    }
  }

  lemma StoredNone(ids: set<Id>, entries: seq<Entry>, faults: seq<Fault>, call: nat)
    requires call < |faults| && faults[call].Fails? && REBUILD_BATCH * call < |entries|
    ensures FirstFailure(faults, call) == call
    ensures StoredIds(ids, entries, faults, call) == ids + Reach(faults[call], Ids(Batch(entries, call)))
  {
    assert entries[REBUILD_BATCH * call..REBUILD_BATCH * call] == [];
  }

  /** A call that fails without leaving anything out: it is that of the last batch, and reached all of it. */
  ghost predicate LastBatchReached(entries: seq<Entry>, faults: seq<Fault>) {
    var j := FirstFailure(faults, 0);
    && j < |faults| && REBUILD_BATCH * j < |entries| <= REBUILD_BATCH * (j + 1)
    && Ids(entries[REBUILD_BATCH * j..]) <= faults[j].reached
  }

  lemma PartReached<T>(before: set<T>, last: set<T>, reached: set<T>)
    requires before !! last
    ensures before + last * reached == before + last <==> last <= reached
  {
  }

  /** A batch before the last one is missing what follows it. */
  lemma EarlierBatchIncomplete(entries: seq<Entry>, end: nat)
    requires DistinctIds(entries) && end < |entries|
    ensures !(Ids(entries) <= Ids(entries[..end]))
  {
    IdsSplit(entries, end);
    assert entries[end] == entries[end..][0];
    assert entries[end].id in Ids(entries[end..]);
  }

  lemma BatchesCompleteIff(entries: seq<Entry>, faults: seq<Fault>)
    requires DistinctIds(entries) && entries != []
    requires !AddBatches(map[], entries, 0, REBUILD_BATCH, faults, 0).1
    ensures AddBatches(map[], entries, 0, REBUILD_BATCH, faults, 0).0.Keys == Ids(entries)
            <==> LastBatchReached(entries, faults)
  {
    BatchesStop(map[], entries, faults, 0);
    var j := FirstFailure(faults, 0);
    var start, end := REBUILD_BATCH * j, BatchEnd(entries, REBUILD_BATCH * j, REBUILD_BATCH);
    assert entries[0..start] == entries[..start];
    if end < |entries| {
      IdsOfBatches(entries, 0, start, end);
      assert entries[0..end] == entries[..end];
      EarlierBatchIncomplete(entries, end);
    } else {
      assert entries[start..end] == entries[start..];
      IdsSplit(entries, start);
      PartReached(Ids(entries[..start]), Ids(entries[start..]), faults[j].reached);
    }
  }

  lemma RebuildWithoutFaults(model: string, entries: seq<Entry>)
    requires DistinctIds(entries)
    ensures var (v, ok) := AddBatches(map[], entries, 0, REBUILD_BATCH, [], 0); ok && v.Keys == Ids(entries)
  {
    assert entries[0..] == entries;
    NoFaultsAddAll(map[], entries, 0, REBUILD_BATCH, [], 0);
    AddBatchesExtends(map[], entries, 0, REBUILD_BATCH, [], 0);
  }

  /** What fails, and whether the old collection still stands or the new one is complete. */
  ghost predicate Harmless(entries: seq<Entry>, fault: RebuildFault) {
    match fault
    case EncodeFails => true
    case DropFails(dropped) => !dropped
    case CreateFails(_) => false
    case Batches(faults) => LastBatchReached(entries, faults)
  }

  /**
   Opening again after a rebuild failed makes it good if and only if the failing call came before the
   old collection was dropped, or was the one for the last batch and stored all of it. Otherwise the new
   label, or the missing one, makes the next check pass with vectors still gone.
  */
  lemma RetryRestoresIff(c: Collection, model: string, entries: seq<Entry>, fault: RebuildFault)
    requires DistinctIds(entries) && MustRebuild(c, model, entries)
    requires !EnsureConsistent(c, model, entries, false, fault).1
    ensures var first := EnsureConsistent(c, model, entries, false, fault).0;
            var (second, ok) := EnsureConsistent(first, model, entries, false, Batches([]));
            && ok && second.stored == Model(model)
            && (second.vectors.Keys == Ids(entries) <==> Harmless(entries, fault))
  {
    RebuildWithoutFaults(model, entries);
    assert entries[0] in entries && entries[0].id in Ids(entries);
    if fault.Batches? {
      BatchesCompleteIff(entries, fault.faults);
    }
  }

  /** A rebuild of one chunk whose store call fails: the chunk is gone, and opening again reports that all is well. */
  lemma RebuildLost(e: Entry, before: string, model: string)
    requires before != model
    ensures var c := Collection(map[e.id := e.meta], Model(before));
            var (first, failed) := EnsureConsistent(c, model, [e], false, Batches([Fails({})]));
            && !failed && first == Collection(map[], Model(model))
            && EnsureConsistent(first, model, [e], false, Batches([])) == (first, true)
  {
    assert [e][0..1] == [e];
    PutKeys(map[], [e], Fails({}));
  }

  // ---- Labels ----

  /**
   Adding never changes a label. An unlabelled collection gets that of the model before anything is stored,
   and stays as it is when the label cannot be written or there is nothing to add.
  */
  lemma AddingLabels(c: Collection, model: string, entries: seq<Entry>, size: nat, labelFails: bool,
                     faults: seq<Fault>)
    requires size >= 1
    ensures var (c', ok) := AddAll(c, model, entries, size, labelFails, faults);
            && (c.stored.Model? ==> c'.stored == c.stored)
            && (c.stored == NoModel ==> c'.stored == Model(model) || c' == c)
            && (c.stored == NoModel && entries != [] ==> (c'.stored == Model(model) <==> !labelFails))
            && (ok && entries != [] ==> c'.stored.Model?)
  {
  }

  /**
   Opening with a model ends with its label whenever it succeeds, except that a collection of another model
   is left alone if there is nothing to embed. Where no rebuild is due no vector changes, and only writing
   a missing label can fail.
  */
  lemma OpeningLabels(c: Collection, model: string, entries: seq<Entry>, labelFails: bool, fault: RebuildFault)
    ensures var (c', ok) := EnsureConsistent(c, model, entries, labelFails, fault);
            && (ok ==> c'.stored == Model(model) || (entries == [] && c' == c))
            && (!MustRebuild(c, model, entries) ==>
                  && c'.vectors == c.vectors && (ok <==> c.stored.Model? || !labelFails)
                  && (c.stored.Model? ==> c' == c))
  {
  }
}
