/**
  How storing a file can end (storage/key_store/disk_write.go, disk_read.go, cache_write.go),
  as a relation between what memory and disk held before and what they hold after, whatever
  the disk does; and what that means for the file and for the files stored before it.
 */
module StoreOutcomes {
  import opened Wrappers
  import opened ChunkSizes
  import opened Stores
  import RT = RoundTrips

  /** `SliceOutOfRange` is a run-time panic, the others are returned errors. */
  datatype StoreError =
    | ChunkFailed(index: nat)
    | SizeMismatch
    | MissingChunk
    | RecordFailed
    | SourceUnreadable
    | ReadFailed(index: nat)
    | SliceOutOfRange(index: nat)

  // ---------------------------------------------------------------- what a store may touch

  /** Nothing but chunk files of these keys differs. */
  ghost predicate FilesExcept(a: map<Path, Bytes>, b: map<Path, Bytes>, keys: set<Key>) {
    forall p: Path :: !(p.ChunkFile? && p.key in keys) ==> (p in a <==> p in b) && (p in a ==> a[p] == b[p])
  }

  lemma {:induction false} OnlyOneFile(a: map<Path, Bytes>, b: map<Path, Bytes>, key: Key)
    requires a - {ChunkFile(key)} == b - {ChunkFile(key)}
    ensures FilesExcept(a, b, {key})
  {
    forall p: Path | p != ChunkFile(key)
      ensures (p in a <==> p in b) && (p in a ==> a[p] == b[p])
    {
      assert p in a <==> p in a - {ChunkFile(key)};
      assert p in b <==> p in b - {ChunkFile(key)};
    }
  }

  lemma {:induction false} FilesExceptTrans(a: map<Path, Bytes>, b: map<Path, Bytes>, c: map<Path, Bytes>, k: set<Key>, l: set<Key>)
    requires FilesExcept(a, b, k) && FilesExcept(b, c, l)
    ensures FilesExcept(a, c, k + l)
  {
  }

  /** A registered chunk's file has the size and the hash the chunk was registered with. */
  predicate Verified(w: View, hashes: Hashes, k: Key) {
    && k in w.registry && ChunkFile(k) in w.files
    && |w.files[ChunkFile(k)]| == w.registry[k].size
    && hashes.sha256(w.files[ChunkFile(k)]) == w.registry[k].dataHash
  }

  /** The first i chunks are registered, on disk and verified, and nothing else has changed. */
  ghost predicate Progress(v: View, w: View, j: Job, i: nat) {
    && w.registry == WithChunks(v, j, i).registry
    && w.references == v.references && w.records == v.records
    && FilesExcept(v.files, w.files, KeysBelow(j, i))
    && (forall k :: k in KeysBelow(j, i) ==> Verified(w, j.hashes, k))
  }

  lemma {:induction false} KeysBelowStep(j: Job, i: nat)
    ensures KeysBelow(j, i + 1) == KeysBelow(j, i) + {KeyAt(j, i)}
  {
  }

  lemma {:induction false} KeysBelowAll(j: Job, i: nat, n: nat)
    requires i <= n
    ensures KeysBelow(j, i) <= KeysBelow(j, n)
  {
  }

  lemma {:induction false} ProgressStep(v: View, w: View, w': View, j: Job, i: nat)
    requires Progress(v, w, j, i)
    requires w'.registry == w.registry[KeyAt(j, i) := ChunkAt(j, i)]
    requires w'.references == w.references && w'.records == w.records
    requires FilesExcept(w.files, w'.files, {KeyAt(j, i)}) && Verified(w', j.hashes, KeyAt(j, i))
    ensures Progress(v, w', j, i + 1)
  {
    KeysBelowStep(j, i);
    FilesExceptTrans(v.files, w.files, w'.files, KeysBelow(j, i), {KeyAt(j, i)});
    forall k | k in KeysBelow(j, i + 1)
      ensures Verified(w', j.hashes, k)
    {
      if k != KeyAt(j, i) {
        assert Verified(w, j.hashes, k);
      }
    }
  }

  /** The references to the first i chunks; the rest are still missing. */
  function Listed(j: Job, n: nat, i: nat): seq<Option<FileChunk>> {
    seq(n, h requires 0 <= h < n => if h < i then Some(ChunkAt(j, h)) else None)
  }

  lemma {:induction false} Registered(v: View, j: Job, i: nat)
    ensures forall k :: k in KeysBelow(j, i) ==>
      && k in WithChunks(v, j, i).registry
      && WithChunks(v, j, i).registry[k].key == k
      && WithChunks(v, j, i).registry[k].location == Some(ChunkFile(k))
    ensures WithChunks(v, j, i).registry - KeysBelow(j, i) == v.registry - KeysBelow(j, i)
  {
    var m := WithChunks(v, j, i).registry;
    forall k | k in KeysBelow(j, i)
      ensures k in m && m[k].key == k && m[k].location == Some(ChunkFile(k))
    {
      var h :| 0 <= h < i && KeyAt(j, h) == k;
      WithChunksLast(v, j, i, h);
    }
    forall k | k !in KeysBelow(j, i)
      ensures (k in m <==> k in v.registry) && (k in m ==> m[k] == v.registry[k])
    {
      WithChunksElsewhere(v, j, i, k);
    }
  }

  // ---------------------------------------------------------------- how a store can end

  ghost predicate SameRecords(v: View, w: View) {
    w.references == v.references && w.records == v.records
  }

  /** After a failure that left the removals in working order: the first i chunks are gone again. */
  ghost predicate RolledBack(v: View, w: View, j: Job, i: nat, touched: set<Key>) {
    && w.registry == v.registry - KeysBelow(j, i)
    && FilesExcept(WithoutKeys(v, KeysBelow(j, i)).files, w.files, touched)
  }

  /** The file's record as it stands once all its chunks are registered. */
  function FinalRecord(v: View, j: Job): FileReference {
    WithChunksKeys(v, j, j.count);
    Reference(j, WithChunks(v, j, j.count).registry)
  }

  /** How the view after a store relates to the view before, for every way it can end. */
  ghost predicate StoreOutcome(v: View, w: View, j: Job, r: Result<FileReference, StoreError>, removesWork: bool) {
    && RT.AgreeExcept(v, w, KeysBelow(j, j.count), j.fileHash)
    && (match r
        case Ok(file) =>
          && Complete(j) && file == FinalRecord(v, j)
          && w.registry == WithChunks(v, j, j.count).registry
          && (forall k :: k in KeysBelow(j, j.count) ==> Verified(w, j.hashes, k))
          && w.references == v.references[j.fileHash := file]
          && w.records == v.records[MetaFile(j.fileHash) := file]
        case Err(ChunkFailed(i)) =>
          && i < j.count && SameRecords(v, w)
          && (removesWork ==> RolledBack(v, w, j, i, {KeyAt(j, i)}))
        case Err(SizeMismatch) =>
          && !Complete(j) && SameRecords(v, w)
          && (removesWork ==> RolledBack(v, w, j, j.count, {}))
        case Err(RecordFailed) =>
          // the record is already in memory when writing it fails, and stays there
          && Complete(j)
          && w.references == v.references[j.fileHash := FinalRecord(v, j)]
          && w.records in {v.records, v.records[MetaFile(j.fileHash) := FinalRecord(v, j)], v.records - {MetaFile(j.fileHash)}}
          && (removesWork ==> RolledBack(v, w, j, j.count, {}))
        case Err(ReadFailed(i)) =>
          // nothing is taken back when the source cannot be read
          j.scheme == ByIndex && i < j.count && Progress(v, w, j, i)
        case Err(SliceOutOfRange(i)) =>
          j.scheme == ByIndex && i < j.count && Progress(v, w, j, i)
        case Err(SourceUnreadable) =>
          j.scheme == ByIndex && w == v
        case Err(MissingChunk) => false)
  }

  lemma {:induction false} OutcomeIsStored(v: View, w: View, j: Job, r: Result<FileReference, StoreError>, removesWork: bool)
    requires StoreOutcome(v, w, j, r, removesWork)
    requires r.Ok? && w.files == WithChunks(v, j, j.count).files
    ensures w == Stored(v, j)
  {
    WithChunksKeys(v, j, j.count);
  }

  lemma {:induction false} ProgressAgrees(v: View, w: View, j: Job, i: nat)
    requires Progress(v, w, j, i) && i <= j.count
    ensures RT.AgreeExcept(v, w, KeysBelow(j, j.count), j.fileHash)
  {
    KeysBelowAll(j, i, j.count);
    forall k | k !in KeysBelow(j, i)
      ensures (k in w.registry <==> k in v.registry) && (k in w.registry ==> w.registry[k] == v.registry[k])
    {
      WithChunksElsewhere(v, j, i, k);
    }
  }

  /** A file whose chunks are all down and whose record has been written. */
  lemma {:induction false} RecordedOutcome(v: View, w: View, w': View, j: Job, removesWork: bool)
    requires Complete(j) && Progress(v, w, j, j.count)
    requires w'.registry == w.registry && w'.files == w.files
    requires w'.references == w.references[j.fileHash := FinalRecord(v, j)]
    requires w'.records == w.records[MetaFile(j.fileHash) := FinalRecord(v, j)]
    ensures StoreOutcome(v, w', j, Ok(FinalRecord(v, j)), removesWork)
  {
    ProgressAgrees(v, w, j, j.count);
    forall k | k in KeysBelow(j, j.count)
      ensures Verified(w', j.hashes, k)
    {
      assert Verified(w, j.hashes, k);
    }
  }

  lemma {:induction false} AllThere(w: View, j: Job, i: nat)
    requires forall k :: k in KeysBelow(j, i) ==> Verified(w, j.hashes, k)
    ensures forall k :: k in KeysBelow(j, i) ==> ChunkFile(k) in w.files
  {
    forall k | k in KeysBelow(j, i)
      ensures ChunkFile(k) in w.files
    {
      assert Verified(w, j.hashes, k);
    }
  }

  /** A write that fails removes no chunk file. */
  lemma {:induction false} StillThere(w: View, w': View, j: Job, i: nat, key: Key)
    requires forall k :: k in KeysBelow(j, i) ==> Verified(w, j.hashes, k)
    requires FilesExcept(w.files, w'.files, {key}) && (ChunkFile(key) in w.files ==> ChunkFile(key) in w'.files)
    ensures forall k :: k in KeysBelow(j, i) ==> ChunkFile(k) in w'.files
  {
    forall k | k in KeysBelow(j, i)
      ensures ChunkFile(k) in w'.files
    {
      assert Verified(w, j.hashes, k);
    }
  }

  /** Stopping at a source that cannot be read, with everything before it in place. */
  lemma {:induction false} StoppedOutcome(v: View, w: View, j: Job, i: nat, e: StoreError, removesWork: bool)
    requires j.scheme == ByIndex && i < j.count && Progress(v, w, j, i)
    requires e == ReadFailed(i) || e == SliceOutOfRange(i)
    ensures StoreOutcome(v, w, j, Err(e), removesWork)
  {
    ProgressAgrees(v, w, j, i);
  }

  /** Giving up after the first i chunks, with the write of one more possibly left half done. */
  lemma {:induction false} GivenUp(v: View, w: View, w': View, w'': View, j: Job, i: nat, touched: set<Key>, removesWork: bool)
    requires Progress(v, w, j, i) && i <= j.count
    requires touched <= KeysBelow(j, j.count)
    requires w'.registry == w.registry && FilesExcept(w.files, w'.files, touched)
    requires FilesExcept(w'.files, w''.files, KeysBelow(j, i))
    requires w''.registry - KeysBelow(j, i) == w'.registry - KeysBelow(j, i)
    requires removesWork ==>
      && w''.registry == w'.registry - KeysBelow(j, i)
      && forall k :: k in KeysBelow(j, i) ==> ChunkFile(k) !in w''.files
    requires forall h :: h != j.fileHash ==>
      (h in v.references <==> h in w''.references) && (h in v.references ==> v.references[h] == w''.references[h])
    ensures RT.AgreeExcept(v, w'', KeysBelow(j, j.count), j.fileHash)
    ensures removesWork ==> RolledBack(v, w'', j, i, touched)
  {
    Registered(v, j, i);
    KeysBelowAll(j, i, j.count);
    FilesExceptTrans(v.files, w.files, w'.files, KeysBelow(j, i), touched);
    FilesExceptTrans(v.files, w'.files, w''.files, KeysBelow(j, i) + touched, KeysBelow(j, i));
    forall k | k !in KeysBelow(j, j.count)
      ensures (k in w''.registry <==> k in v.registry) && (k in v.registry ==> w''.registry[k] == v.registry[k])
    {
      assert k in w''.registry <==> k in w''.registry - KeysBelow(j, i);
      assert k in v.registry <==> k in v.registry - KeysBelow(j, i);
    }
  }

  lemma {:induction false} CompletedIsReference(v: View, j: Job)
    ensures
      var registry := WithChunks(v, j, j.count).registry;
      var file := FileReference(Meta(j), Listed(j, j.count, j.count));
      && (forall i :: 0 <= i < |file.chunks| && file.chunks[i].Some? ==> file.chunks[i].value.key in registry)
      && KeysBelow(j, j.count) <= registry.Keys
      && Completed(file, registry) == Reference(j, registry)
  {
    Registered(v, j, j.count);
    var registry := WithChunks(v, j, j.count).registry;
    var file := FileReference(Meta(j), Listed(j, j.count, j.count));
    forall i | 0 <= i < j.count
      ensures file.chunks[i] == Some(ChunkAt(j, i)) && KeyAt(j, i) in KeysBelow(j, j.count)
    {
    }
    assert Completed(file, registry).chunks == Reference(j, registry).chunks;
  }

  function CompletedChunk(c: Option<FileChunk>, registry: map<Key, FileChunk>): Option<FileChunk>
    requires c.Some? ==> c.value.key in registry
  {
    match c
    case None => None
    case Some(ref) => Some(registry[ref.key].(key := ref.key))
  }

  /** The record as completed from the registry. */
  function Completed(file: FileReference, registry: map<Key, FileChunk>): FileReference
    requires forall i :: 0 <= i < |file.chunks| && file.chunks[i].Some? ==> file.chunks[i].value.key in registry
  {
    file.(chunks := seq(|file.chunks|, i requires 0 <= i < |file.chunks| => CompletedChunk(file.chunks[i], registry)))
  }

  // ---------------------------------------------------------------- what a failure leaves behind

  /**
    A failed store leaves the registry as it was exactly when none of the chunks rolled back
    had a key registered already, and the files as they were, but for the chunk that could
    not be written, exactly when none of those keys had a file already.
   */
  lemma {:induction false} RollbackRestores(v: View, w: View, j: Job, i: nat, touched: set<Key>)
    requires RolledBack(v, w, j, i, touched)
    ensures w.registry == v.registry <==> KeysBelow(j, i) !! v.registry.Keys
    ensures FilesExcept(v.files, w.files, touched) <==>
      forall k :: k in KeysBelow(j, i) && k !in touched ==> ChunkFile(k) !in v.files
  {
    forall k | k in KeysBelow(j, i) && k !in touched
      ensures ChunkFile(k) !in w.files
    {
      assert ChunkFile(k) !in WithoutKeys(v, KeysBelow(j, i)).files;
    }
    if w.registry == v.registry {
      assert v.registry.Keys == v.registry.Keys - KeysBelow(j, i);
    }
  }

  /** Chunk by chunk, the registry already held what the first i chunks register. */
  predicate RegisteredBefore(v: View, j: Job, i: nat) {
    forall h :: 0 <= h < i ==> KeyAt(j, h) in v.registry && v.registry[KeyAt(j, h)] == ChunkAt(j, LastUse(j, i, h))
  }

  lemma {:induction false} RegisteringAgain(v: View, j: Job, i: nat)
    ensures WithChunks(v, j, i).registry == v.registry <==> RegisteredBefore(v, j, i)
  {
    var m := WithChunks(v, j, i).registry;
    forall h | 0 <= h < i
      ensures KeyAt(j, h) in m && m[KeyAt(j, h)] == ChunkAt(j, LastUse(j, i, h))
    {
      WithChunksLast(v, j, i, h);
    }
    if RegisteredBefore(v, j, i) {
      forall k
        ensures (k in m <==> k in v.registry) && (k in m ==> m[k] == v.registry[k])
      {
        if k in KeysBelow(j, i) {
          var h :| 0 <= h < i && KeyAt(j, h) == k;
          assert m[KeyAt(j, h)] == v.registry[KeyAt(j, h)];
        } else {
          WithChunksElsewhere(v, j, i, k);
        }
      }
    }
  }

  /**
    A source that cannot be read to its end leaves the chunks before it registered. The
    registry is as it was exactly when it already held what those chunks register.
   */
  lemma {:induction false} ReadFailureLeaves(v: View, w: View, j: Job, i: nat)
    requires Progress(v, w, j, i)
    ensures w.registry == v.registry <==> RegisteredBefore(v, j, i)
    ensures KeysBelow(j, i) !! v.registry.Keys ==> (w.registry == v.registry <==> i == 0)
  {
    RegisteringAgain(v, j, i);
    if i > 0 {
      assert KeyAt(j, 0) in KeysBelow(j, i);
    }
  }

  /** The record left in memory refers to chunks that are gone. */
  lemma {:induction false} FailedRecordIsUnreadable(v: View, w: View, j: Job)
    requires StoreOutcome(v, w, j, Err(RecordFailed), true)
    ensures Reassembled(w, j.hashes, j.fileHash).Err?
  {
    CeilDivBounds(j.size, j.chunkSize);
    assert j.count > 0;
    Registered(v, j, j.count);
    assert KeyAt(j, 0) in KeysBelow(j, j.count);
    UnreadableFirst(w, j.hashes, j.fileHash);
  }

  // ---------------------------------------------------------------- what success means

  /** The pieces of a file, and the bytes found in its chunk files. */
  function Involved(w: View, j: Job): set<Bytes> {
    (set i | 0 <= i < j.count :: PieceAt(j, i)) +
    (set i | 0 <= i < j.count && ChunkFile(KeyAt(j, i)) in w.files :: w.files[ChunkFile(KeyAt(j, i))])
  }

  /** A store that reports success has succeeded, whatever faults it met: the file is held. */
  lemma {:induction false} ReportedIsHeld(v: View, w: View, j: Job, file: FileReference, removesWork: bool)
    requires StoreOutcome(v, w, j, Ok(file), removesWork)
    requires RT.CollisionFree(j.hashes.sha256, Involved(w, j))
    ensures RT.Holds(w, j)
  {
    forall i | 0 <= i < j.count
      ensures RT.HoldsChunk(w, j, i)
    {
      var l := LastUse(j, j.count, i);
      WithChunksLast(v, j, j.count, i);
      assert KeyAt(j, i) in KeysBelow(j, j.count);
      assert Verified(w, j.hashes, KeyAt(j, i));
      assert PieceAt(j, l) in Involved(w, j);
      assert w.files[ChunkFile(KeyAt(j, i))] in Involved(w, j);
    }
  }

  /** So it reads back, if no chunk overwrote another and the file did not change while being stored. */
  lemma {:induction false} ReportedReadsBack(v: View, w: View, j: Job, file: FileReference, removesWork: bool)
    requires StoreOutcome(v, w, j, Ok(file), removesWork)
    requires RT.CollisionFree(j.hashes.sha256, Involved(w, j))
    ensures Reassembled(w, j.hashes, j.fileHash) == Ok(j.data)
      <==> RT.NothingOverwritten(j) && j.fileHash == j.hashes.sha256(j.data)
  {
    ReportedIsHeld(v, w, j, file, removesWork);
    RT.RoundTrip(w, j);
  }

  // ---------------------------------------------------------------- files stored before

  /** However another file's store ends, a file that is held stays held. */
  lemma {:induction false} HoldsThroughStore(v: View, w: View, j: Job, o: Job, r: Result<FileReference, StoreError>, removesWork: bool)
    requires RT.Holds(v, j) && StoreOutcome(v, w, o, r, removesWork)
    requires j.hashes == o.hashes && j.fileHash != o.fileHash
    requires RT.CollisionFree(j.hashes.sha1, RT.KeyInputs(j) + RT.KeyInputs(o))
    ensures RT.Holds(w, j)
  {
    RT.KeysDisjoint(j, o);
    RT.HoldsElsewhere(v, w, j, KeysBelow(o, o.count), o.fileHash);
  }

  /** The two ways of storing a file never share a chunk key. */
  lemma {:induction false} SchemesDisjoint(j: Job, o: Job)
    requires j.hashes == o.hashes && j.scheme != o.scheme
    requires RT.CollisionFree(j.hashes.sha1, RT.KeyInputs(j) + RT.KeyInputs(o))
    ensures KeysBelow(j, j.count) !! KeysBelow(o, o.count)
  {
    forall a, b | 0 <= a < j.count && 0 <= b < o.count
      ensures KeyAt(j, a) != KeyAt(o, b)
    {
      RT.KeyInputPresent(j, a);
      RT.KeyInputPresent(o, b);
      assert |KeyInput(j.scheme, j.fileHash, a)| != |KeyInput(o.scheme, o.fileHash, b)|;
    }
  }

  // ---------------------------------------------------------------- the same bytes again

  /** The same file, perhaps stored the other way or under another name. */
  ghost predicate SameBytes(j: Job, o: Job) {
    o == j.(scheme := o.scheme, name := o.name)
  }

  /** When a file that is held stays held while the same bytes are stored again. */
  ghost predicate SurvivesAgain(v: View, w: View, j: Job, o: Job, r: Result<FileReference, StoreError>)
    requires r.Err? ==> r.error != MissingChunk
  {
    match r
    case Ok(_) => o == j
    case Err(ChunkFailed(i)) => o.scheme != j.scheme || (i == 0 && SameChunkFile(v, w, KeyAt(j, 0)))
    case Err(RecordFailed) => false
    case Err(ReadFailed(i)) => o.scheme != j.scheme || i == 0 || o.name == j.name
    case Err(SliceOutOfRange(i)) => o.scheme != j.scheme || i == 0 || o.name == j.name
    case Err(SizeMismatch) => true
    case Err(SourceUnreadable) => true
  }

  predicate SameChunkFile(v: View, w: View, k: Key) {
    ChunkFile(k) in w.files && ChunkFile(k) in v.files && w.files[ChunkFile(k)] == v.files[ChunkFile(k)]
  }

  /** Nothing about the first chunk is as the file needs it, so the file is not held. */
  lemma {:induction false} NotHeldWithoutFirst(w: View, j: Job)
    requires j.count > 0 && !RT.HoldsChunk(w, j, 0)
    ensures !RT.Holds(w, j)
  {
  }

  lemma {:induction false} AgainStored(v: View, w: View, j: Job, o: Job, file: FileReference)
    requires Complete(j) && SameBytes(j, o) && StoreOutcome(v, w, o, Ok(file), true)
    requires RT.CollisionFree(j.hashes.sha256, Involved(w, o))
    requires RT.CollisionFree(j.hashes.sha1, RT.KeyInputs(j) + RT.KeyInputs(o))
    ensures RT.Holds(w, j) <==> o == j
  {
    ReportedIsHeld(v, w, o, file, true);
    CeilDivBounds(j.size, j.chunkSize);
    if o.scheme != j.scheme {
      SchemesDisjoint(j, o);
      assert RT.HoldsChunk(w, o, 0);
      assert KeyAt(j, LastUse(j, j.count, 0)) in KeysBelow(j, j.count);
      assert KeyAt(o, LastUse(o, o.count, 0)) in KeysBelow(o, o.count);
      NotHeldWithoutFirst(w, j);
    }
  }

  lemma {:induction false} AgainOtherScheme(v: View, w: View, j: Job, o: Job)
    requires RT.Holds(v, j) && SameBytes(j, o) && o.scheme != j.scheme
    requires RT.AgreeExcept(v, w, KeysBelow(o, o.count), o.fileHash) && w.references == v.references
    requires RT.CollisionFree(j.hashes.sha1, RT.KeyInputs(j) + RT.KeyInputs(o))
    ensures RT.Holds(w, j)
  {
    SchemesDisjoint(j, o);
    forall i | 0 <= i < j.count
      ensures RT.HoldsChunk(w, j, i)
    {
      assert RT.HoldsChunk(v, j, i);
      assert KeyAt(j, i) in KeysBelow(j, j.count);
    }
  }

  lemma {:induction false} SameKeys(j: Job, o: Job, i: nat)
    requires SameBytes(j, o) && o.scheme == j.scheme
    ensures KeysBelow(o, i) == KeysBelow(j, i)
  {
    assert forall h :: 0 <= h < i ==> KeyAt(o, h) == KeyAt(j, h);
  }

  lemma {:induction false} AgainRolledBack(v: View, w: View, j: Job, o: Job, i: nat)
    requires Complete(j) && RT.Holds(v, j) && SameBytes(j, o) && o.scheme == j.scheme
    requires i < j.count && w.references == v.references && RolledBack(v, w, o, i, {KeyAt(o, i)})
    ensures RT.Holds(w, j) <==> i == 0 && SameChunkFile(v, w, KeyAt(j, 0))
  {
    SameKeys(j, o, i);
    assert RT.HoldsChunk(v, j, 0);
    if i > 0 {
      assert KeyAt(j, 0) in KeysBelow(j, i);
      NotHeldWithoutFirst(w, j);
    } else if SameChunkFile(v, w, KeyAt(j, 0)) {
      forall h | 0 <= h < j.count
        ensures RT.HoldsChunk(w, j, h)
      {
        assert RT.HoldsChunk(v, j, h);
        assert ChunkFile(KeyAt(j, h)) in WithoutKeys(v, {}).files;
      }
    } else {
      NotHeldWithoutFirst(w, j);
    }
  }

  lemma {:induction false} AgainUnregistered(v: View, w: View, j: Job, o: Job)
    requires Complete(j) && SameBytes(j, o) && StoreOutcome(v, w, o, Err(RecordFailed), true)
    ensures !RT.Holds(w, j)
  {
    CeilDivBounds(j.size, j.chunkSize);
    Registered(v, o, o.count);
    assert KeyAt(o, 0) in KeysBelow(o, o.count);
    assert w.references[o.fileHash].chunks[0].value.key == KeyAt(o, 0);
    NotHeldWithoutFirst(w, j);
  }

  lemma {:induction false} IndexLastUse(j: Job, n: nat, h: nat)
    requires Storable(j) && j.scheme == ByIndex && h < n <= j.count
    requires RT.CollisionFree(j.hashes.sha1, RT.KeyInputs(j))
    ensures LastUse(j, n, h) == h
  {
    var l := LastUse(j, n, h);
    RT.KeyInputPresent(j, h);
    RT.KeyInputPresent(j, l);
    RT.IndexKeysDiffer(j.fileHash, h, l);
  }

  lemma {:induction false} IndexKeyNotBelow(j: Job, o: Job, i: nat, h: nat)
    requires Storable(j) && SameBytes(j, o) && o.scheme == j.scheme == ByIndex && i <= h < j.count
    requires RT.CollisionFree(j.hashes.sha1, RT.KeyInputs(j))
    ensures KeyAt(j, h) !in KeysBelow(o, i)
  {
    forall g | 0 <= g < i
      ensures KeyAt(o, g) != KeyAt(j, h)
    {
      RT.KeyInputPresent(j, g);
      RT.KeyInputPresent(j, h);
      if KeyInput(ByIndex, j.fileHash, g) == KeyInput(ByIndex, j.fileHash, h) {
        RT.IndexKeysDiffer(j.fileHash, g, h);
      }
    }
  }

  lemma {:induction false} AgainHalfRead(v: View, w: View, j: Job, o: Job, i: nat)
    requires Complete(j) && RT.Holds(v, j) && SameBytes(j, o) && o.scheme == j.scheme == ByIndex
    requires i < j.count && Progress(v, w, o, i)
    requires RT.CollisionFree(j.hashes.sha256, Involved(w, o)) && RT.CollisionFree(j.hashes.sha1, RT.KeyInputs(j))
    ensures RT.Holds(w, j) <==> i == 0 || o.name == j.name
  {
    SameKeys(j, o, i);
    if i == 0 || o.name == j.name {
      forall h | 0 <= h < j.count
        ensures RT.HoldsChunk(w, j, h)
      {
        AgainHalfReadChunk(v, w, j, o, i, h);
      }
    } else {
      WithChunksLast(v, o, i, 0);
      assert w.registry[KeyAt(j, 0)].fileName == o.name;
      NotHeldWithoutFirst(w, j);
    }
  }

  lemma {:induction false} AgainHalfReadChunk(v: View, w: View, j: Job, o: Job, i: nat, h: nat)
    requires Complete(j) && RT.Holds(v, j) && SameBytes(j, o) && o.scheme == j.scheme == ByIndex
    requires i < j.count && h < j.count && Progress(v, w, o, i)
    requires RT.CollisionFree(j.hashes.sha256, Involved(w, o)) && RT.CollisionFree(j.hashes.sha1, RT.KeyInputs(j))
    requires i == 0 || o.name == j.name
    ensures RT.HoldsChunk(w, j, h)
  {
    assert RT.HoldsChunk(v, j, h);
    IndexLastUse(j, j.count, h);
    if h < i {
      assert o == j;
      IndexLastUse(j, i, h);
      WithChunksLast(v, j, i, h);
      assert Verified(w, j.hashes, KeyAt(j, h));
      assert PieceAt(j, h) in Involved(w, j) && w.files[ChunkFile(KeyAt(j, h))] in Involved(w, j);
    } else {
      IndexKeyNotBelow(j, o, i, h);
      WithChunksElsewhere(v, o, i, KeyAt(j, h));
    }
  }

  /** Storing the same bytes again: exactly when the file stored before is still held. */
  lemma {:induction false} HoldsThroughStoringAgain(v: View, w: View, j: Job, o: Job, r: Result<FileReference, StoreError>)
    requires Complete(j) && RT.Holds(v, j) && SameBytes(j, o) && StoreOutcome(v, w, o, r, true)
    requires RT.CollisionFree(j.hashes.sha256, Involved(w, o))
    requires RT.CollisionFree(j.hashes.sha1, RT.KeyInputs(j) + RT.KeyInputs(o))
    ensures RT.Holds(w, j) <==> SurvivesAgain(v, w, j, o, r)
  {
    match r {
      case Ok(file) => AgainStored(v, w, j, o, file);
      case Err(RecordFailed) => AgainUnregistered(v, w, j, o);
      case Err(SourceUnreadable) =>
      case Err(SizeMismatch) => assert false;
      case Err(ChunkFailed(i)) =>
        if o.scheme != j.scheme {
          AgainOtherScheme(v, w, j, o);
        } else {
          AgainRolledBack(v, w, j, o, i);
        }
      case Err(ReadFailed(i)) =>
        if o.scheme != j.scheme {
          AgainOtherScheme(v, w, j, o);
        } else {
          AgainHalfRead(v, w, j, o, i);
        }
      case Err(SliceOutOfRange(i)) =>
        if o.scheme != j.scheme {
          AgainOtherScheme(v, w, j, o);
        } else {
          AgainHalfRead(v, w, j, o, i);
        }
    }
  }

  // ---------------------------------------------------------------- and whether it still reads back

  lemma {:induction false} SameDataSamePiece(v: View, w: View, hashes: Hashes, file: FileReference, i: nat, buf: Bytes, total: nat)
    requires i < |file.chunks|
    requires file.chunks[i].Some? ==>
      DataOf(v, hashes, file.chunks[i].value.key) == DataOf(w, hashes, file.chunks[i].value.key)
    ensures AssembleOne(v, hashes, file, i, buf, total) == AssembleOne(w, hashes, file, i, buf, total)
  {
    assert PieceOf(v, hashes, file, i) == PieceOf(w, hashes, file, i);
  }

  /** A record reads the same wherever its chunks' keys give the same data. */
  lemma {:induction false} SameDataReadsSame(v: View, w: View, hashes: Hashes, file: FileReference, m: nat)
    requires m <= |file.chunks|
    requires forall i :: 0 <= i < m && file.chunks[i].Some? ==>
      DataOf(v, hashes, file.chunks[i].value.key) == DataOf(w, hashes, file.chunks[i].value.key)
    ensures Assembled(v, hashes, file, m) == Assembled(w, hashes, file, m)
    decreases m
  {
    if m > 0 {
      SameDataReadsSame(v, w, hashes, file, m - 1);
      match Assembled(v, hashes, file, m - 1) {
        case Err(_) =>
        case Ok((buf, total)) =>
          SameDataSamePiece(v, w, hashes, file, m - 1, buf, total);
          RT.AssembledStep(v, hashes, file, m, buf, total);
          RT.AssembledStep(w, hashes, file, m, buf, total);
      }
    }
  }

  /** The first chunk cannot be read, so the file cannot. */
  lemma {:induction false} UnreadableFirst(w: View, hashes: Hashes, h: Hash)
    requires h in w.references && |w.references[h].chunks| > 0 && w.references[h].chunks[0].Some?
    requires DataOf(w, hashes, w.references[h].chunks[0].value.key).Err?
    ensures Reassembled(w, hashes, h) == Err(DataOf(w, hashes, w.references[h].chunks[0].value.key).error)
  {
    var file := w.references[h];
    assert PieceOf(w, hashes, file, 0) == Err(DataOf(w, hashes, file.chunks[0].value.key).error);
    RT.AssembledStep(w, hashes, file, 1, seq(file.meta.totalSize, _ => 0), 0);
    RT.ErrorsStay(w, hashes, file, 1, |file.chunks|);
  }

  /** A rollback loses the file by its first chunk, unless there was nothing to roll back and the chunk is as it was. */
  lemma {:induction false} RolledBackReads(v: View, w: View, j: Job, o: Job, i: nat)
    requires Fitting(j) && RT.Holds(v, j) && RT.NothingOverwritten(j) && SameBytes(j, o) && o.scheme == j.scheme
    requires i < j.count && w.references == v.references && RolledBack(v, w, o, i, {KeyAt(o, i)})
    requires RT.CollisionFree(j.hashes.sha256, Involved(w, o))
    ensures Reassembled(w, j.hashes, j.fileHash) == Ok(j.data) <==> i == 0 && SameChunkFile(v, w, KeyAt(j, 0))
  {
    AgainRolledBack(v, w, j, o, i);
    if i == 0 && SameChunkFile(v, w, KeyAt(j, 0)) {
      RT.RoundTrip(w, j);
    } else {
      SameKeys(j, o, i);
      assert RT.HoldsChunk(v, j, 0) && RT.Latest(j, 0) == PieceAt(j, 0);
      if i > 0 {
        assert KeyAt(j, 0) in KeysBelow(j, i);
      } else if ChunkFile(KeyAt(j, 0)) in w.files {
        assert PieceAt(o, 0) in Involved(w, o) && w.files[ChunkFile(KeyAt(o, 0))] in Involved(w, o);
      }
      UnreadableFirst(w, j.hashes, j.fileHash);
    }
  }

  lemma {:induction false} HalfReadData(v: View, w: View, j: Job, o: Job, i: nat, h: nat)
    requires Fitting(j) && RT.Holds(v, j) && SameBytes(j, o) && o.scheme == j.scheme == ByIndex
    requires i < j.count && h < j.count && Progress(v, w, o, i)
    requires RT.CollisionFree(j.hashes.sha256, Involved(w, o)) && RT.CollisionFree(j.hashes.sha1, RT.KeyInputs(j))
    ensures DataOf(w, j.hashes, KeyAt(j, h)) == DataOf(v, j.hashes, KeyAt(j, h))
  {
    RT.DataOfHeld(v, j, h);
    IndexLastUse(j, j.count, h);
    if h < i {
      assert KeyAt(o, h) == KeyAt(j, h) && KeyAt(o, h) in KeysBelow(o, i);
      assert RT.KeyInputs(o) == RT.KeyInputs(j);
      IndexLastUse(o, i, h);
      WithChunksLast(v, o, i, h);
      assert Verified(w, j.hashes, KeyAt(j, h));
      assert PieceAt(o, h) in Involved(w, o) && w.files[ChunkFile(KeyAt(o, h))] in Involved(w, o);
    } else {
      IndexKeyNotBelow(j, o, i, h);
      WithChunksElsewhere(v, o, i, KeyAt(j, h));
      assert RT.HoldsChunk(v, j, h);
    }
  }

  lemma {:induction false} HalfReadReads(v: View, w: View, j: Job, o: Job, i: nat)
    requires Fitting(j) && RT.Holds(v, j) && RT.NothingOverwritten(j) && SameBytes(j, o) && o.scheme == j.scheme == ByIndex
    requires i < j.count && Progress(v, w, o, i)
    requires RT.CollisionFree(j.hashes.sha256, Involved(w, o)) && RT.CollisionFree(j.hashes.sha1, RT.KeyInputs(j))
    ensures Reassembled(w, j.hashes, j.fileHash) == Ok(j.data)
  {
    var file := v.references[j.fileHash];
    forall h | 0 <= h < |file.chunks| && file.chunks[h].Some?
      ensures DataOf(v, j.hashes, file.chunks[h].value.key) == DataOf(w, j.hashes, file.chunks[h].value.key)
    {
      assert RT.HoldsChunk(v, j, h);
      HalfReadData(v, w, j, o, i, h);
    }
    SameDataReadsSame(v, w, j.hashes, file, |file.chunks|);
    RT.RoundTrip(v, j);
  }

  /** When a file that reads back goes on reading back while the same bytes are stored again. */
  ghost predicate ReadsAgain(v: View, w: View, j: Job, o: Job, r: Result<FileReference, StoreError>) {
    match r
    case Ok(_) => RT.NothingOverwritten(o)
    case Err(ChunkFailed(i)) => o.scheme != j.scheme || (i == 0 && SameChunkFile(v, w, KeyAt(j, 0)))
    case Err(RecordFailed) => false
    case Err(_) => true
  }

  lemma {:induction false} ReadsThroughStoringAgain(v: View, w: View, j: Job, o: Job, r: Result<FileReference, StoreError>)
    requires Fitting(j) && RT.Holds(v, j) && RT.NothingOverwritten(j)
    requires SameBytes(j, o) && StoreOutcome(v, w, o, r, true)
    requires RT.CollisionFree(j.hashes.sha256, Involved(w, o))
    requires RT.CollisionFree(j.hashes.sha1, RT.KeyInputs(j) + RT.KeyInputs(o))
    ensures Reassembled(w, j.hashes, j.fileHash) == Ok(j.data) <==> ReadsAgain(v, w, j, o, r)
  {
    match r {
      case Ok(file) => ReportedReadsBack(v, w, o, file, true);
      case Err(RecordFailed) => FailedRecordIsUnreadable(v, w, o);
      case Err(SourceUnreadable) => RT.RoundTrip(v, j);
      case Err(SizeMismatch) => assert false;
      case Err(MissingChunk) => assert false;
      case Err(ChunkFailed(i)) =>
        if o.scheme != j.scheme {
          AgainOtherScheme(v, w, j, o);
          RT.RoundTrip(w, j);
        } else {
          RolledBackReads(v, w, j, o, i);
        }
      case Err(ReadFailed(i)) => StoppedReads(v, w, j, o, i);
      case Err(SliceOutOfRange(i)) => StoppedReads(v, w, j, o, i);
    }
  }

  lemma {:induction false} StoppedReads(v: View, w: View, j: Job, o: Job, i: nat)
    requires Fitting(j) && RT.Holds(v, j) && RT.NothingOverwritten(j) && SameBytes(j, o) && o.scheme == ByIndex
    requires i < j.count && Progress(v, w, o, i) && RT.AgreeExcept(v, w, KeysBelow(o, o.count), o.fileHash)
    requires RT.CollisionFree(j.hashes.sha256, Involved(w, o))
    requires RT.CollisionFree(j.hashes.sha1, RT.KeyInputs(j) + RT.KeyInputs(o))
    ensures Reassembled(w, j.hashes, j.fileHash) == Ok(j.data)
  {
    if o.scheme != j.scheme {
      AgainOtherScheme(v, w, j, o);
      RT.RoundTrip(w, j);
    } else {
      HalfReadReads(v, w, j, o, i);
    }
  }
}
