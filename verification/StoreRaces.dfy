/**
  Many stores at once. Every operation of the key store takes its lock for itself: writing a
  chunk, deleting one, completing a record. Two stores therefore interleave chunk by chunk,
  and any operation of any store may come next.
 */
module StoreRaces {
  import opened Wrappers
  import opened ChunkSizes
  import opened Stores
  import opened StoreOutcomes
  import opened StoreRuns
  import opened KeyStores
  import SO = StoreOutcomes
  import RT = RoundTrips

  /**
    A chunk of a file written, verified and registered; a file's record completed and
    written; or anything else that concerns the file, such as a write that fails, a chunk
    taken back, or a record that cannot be written.
   */
  datatype Step =
    | Wrote(job: Job, i: nat)
    | Completed(job: Job)
    | Other(job: Job)

  ghost predicate ChunkWritten(v: View, w: View, j: Job, i: nat) {
    && i < j.count
    && w.registry == v.registry[KeyAt(j, i) := ChunkAt(j, i)]
    && w.references == v.references && w.records == v.records
    && FilesExcept(v.files, w.files, {KeyAt(j, i)}) && Verified(w, j.hashes, KeyAt(j, i))
  }

  /** What `updateReference` does once every chunk it looks for is registered. */
  ghost predicate RecordCompleted(v: View, w: View, j: Job) {
    && KeysBelow(j, j.count) <= v.registry.Keys
    && w.registry == v.registry && w.files == v.files
    && w.references == v.references[j.fileHash := Reference(j, v.registry)]
    && w.records == v.records[MetaFile(j.fileHash) := Reference(j, v.registry)]
  }

  ghost predicate Taken(v: View, w: View, s: Step) {
    match s
    case Wrote(j, i) => ChunkWritten(v, w, j, i)
    case Completed(j) => RecordCompleted(v, w, j)
    case Other(j) => RT.AgreeExcept(v, w, KeysBelow(j, j.count), j.fileHash) && OtherRecordsSame(v, w, j.fileHash)
  }

  ghost predicate OtherRecordsSame(v: View, w: View, h: Hash) {
    forall g :: g != h && MetaFile(g) in v.records ==> MetaFile(g) in w.records && w.records[MetaFile(g)] == v.records[MetaFile(g)]
  }

  ghost predicate Race(hashes: Hashes, jobs: seq<Job>, views: seq<View>, steps: seq<Step>) {
    && SoundHashes(hashes, jobs)
    && |views| == |steps| + 1
    && (forall n :: 0 <= n < |steps| ==> steps[n].job in jobs && Taken(views[n], views[n + 1], steps[n]))
  }

  // ---------------------------------------------------------------- the operations are such steps

  /** Writing a chunk either puts it down or disturbs at most the file's own keys. */
  method WriteStep(ks: KeyStore, chunk: FileChunk, data: Bytes, ghost j: Job, ghost i: nat) returns (stored: Option<FileChunk>)
    requires j.hashes == ks.hashes && i < j.count && data == PieceAt(j, i) && MadeFor(chunk, j, i)
    modifies ks, ks.disk
    ensures Taken(old(ks.View()), ks.View(), if stored.Some? then Wrote(j, i) else Other(j))
  {
    RegisteredChunk(chunk, j, i);
    assert KeyAt(j, i) in KeysBelow(j, j.count);
    stored := ks.WriteChunkToDisk(chunk, data);
  }

  /** Taking a chunk of the file out disturbs at most that chunk. */
  method DeleteStep(ks: KeyStore, key: Key, ghost j: Job) returns (ok: bool)
    requires key in KeysBelow(j, j.count) && (key in ks.registry ==> ks.registry[key].location == Some(ChunkFile(key)))
    modifies ks, ks.disk
    ensures Taken(old(ks.View()), ks.View(), Other(j))
  {
    ok := ks.DeleteDataFromDisk(key);
  }

  /** Completing the record either does so or disturbs at most the file's own reference and record. */
  method RecordStep(ks: KeyStore, file: FileReference, ghost j: Job) returns (r: Result<FileReference, StoreError>)
    requires file == FileReference(Meta(j), SO.Listed(j, j.count, j.count))
    requires forall k :: k in ks.registry ==> ks.registry[k].key == k
    modifies ks, ks.disk
    ensures Taken(old(ks.View()), ks.View(), if r.Ok? then Completed(j) else Other(j))
  {
    ghost var registry := ks.registry;
    r := ks.UpdateReference(file);
    if r.Ok? {
      forall i | 0 <= i < j.count
        ensures KeyAt(j, i) in registry
      {
        assert file.chunks[i].Some? && file.chunks[i].value.key == KeyAt(j, i);
      }
      assert SO.Completed(file, registry).chunks == Reference(j, registry).chunks;
    }
  }

  // ---------------------------------------------------------------- what other files' steps leave alone

  lemma {:induction false} StepIsElsewhere(v: View, w: View, s: Step)
    requires Taken(v, w, s)
    ensures RT.AgreeExcept(v, w, KeysBelow(s.job, s.job.count), s.job.fileHash) && OtherRecordsSame(v, w, s.job.fileHash)
  {
    if s.Wrote? {
      assert KeyAt(s.job, s.i) in KeysBelow(s.job, s.job.count);
    }
  }

  /** The first p chunks are as the file's own writes left them. */
  ghost predicate Down(w: View, j: Job, p: nat) {
    forall h :: 0 <= h < p ==> ChunkDown(w, j, p, h)
  }

  predicate ChunkDown(w: View, j: Job, p: nat, h: nat)
    requires h < p
  {
    && KeyAt(j, h) in w.registry && w.registry[KeyAt(j, h)] == ChunkAt(j, LastUse(j, p, h))
    && Verified(w, j.hashes, KeyAt(j, h))
  }

  lemma {:induction false} DownElsewhere(v: View, w: View, j: Job, p: nat, keys: set<Key>, hash: Hash)
    requires Down(v, j, p) && RT.AgreeExcept(v, w, keys, hash) && KeysBelow(j, p) !! keys
    ensures Down(w, j, p)
  {
    forall h | 0 <= h < p
      ensures ChunkDown(w, j, p, h)
    {
      assert ChunkDown(v, j, p, h);
      assert KeyAt(j, h) in KeysBelow(j, p);
    }
  }

  lemma {:induction false} DownStep(v: View, w: View, j: Job, p: nat)
    requires Down(v, j, p) && ChunkWritten(v, w, j, p)
    ensures Down(w, j, p + 1)
  {
    var n := p + 1;
    forall h | 0 <= h < n
      ensures ChunkDown(w, j, n, h)
    {
      if KeyAt(j, h) != KeyAt(j, p) {
        assert ChunkDown(v, j, p, h);
      }
    }
  }

  lemma {:induction false} CompletedIsKept(v: View, w: View, j: Job)
    requires Down(v, j, j.count) && RecordCompleted(v, w, j)
    requires RT.CollisionFree(j.hashes.sha256, Involved(w, j))
    ensures Kept(w, j)
  {
    forall i | 0 <= i < j.count
      ensures RT.HoldsChunk(w, j, i)
    {
      assert ChunkDown(v, j, j.count, i);
      var l := LastUse(j, j.count, i);
      assert PieceAt(j, l) in Involved(w, j) && w.files[ChunkFile(KeyAt(j, i))] in Involved(w, j);
    }
  }

  // ---------------------------------------------------------------- stores of different files

  /** How far the store of one file has come: its chunks down, or all of it. */
  datatype Stage = Writing(p: nat) | Done

  ghost predicate At(w: View, j: Job, stage: Stage) {
    match stage
    case Writing(p) => p <= j.count && Down(w, j, p)
    case Done => Kept(w, j)
  }

  /** What a step makes of the stage of a file's one store; None if it is not the step that is due. */
  ghost function NextStage(j: Job, stage: Stage, s: Step): Option<Stage> {
    if s.job.fileHash != j.fileHash then Some(stage)
    else
      match stage
      case Done => None
      case Writing(p) =>
        if p < j.count then (if s == Wrote(j, p) then Some(Writing(p + 1)) else None)
        else if s == Completed(j) then Some(Done)
        else None
  }

  /** The file's own steps are those of one store that succeeds: its chunks in order, then its record. */
  ghost predicate OneStore(steps: seq<Step>, j: Job, n: nat, stage: Stage)
    requires n <= |steps|
    decreases |steps| - n
  {
    if n == |steps| then stage.Done?
    else
      var next := NextStage(j, stage, steps[n]);
      next.Some? && OneStore(steps, j, n + 1, next.value)
  }

  lemma {:induction false} StageElsewhere(hashes: Hashes, jobs: seq<Job>, v: View, w: View, s: Step, j: Job, stage: Stage)
    requires SoundHashes(hashes, jobs) && j in jobs && s.job in jobs && s.job.fileHash != j.fileHash
    requires At(v, j, stage) && Taken(v, w, s)
    ensures At(w, j, stage)
  {
    SoundPair(hashes, jobs, j, s.job);
    RT.KeysDisjoint(j, s.job);
    StepIsElsewhere(v, w, s);
    match stage {
      case Writing(p) =>
        KeysBelowAll(j, p, j.count);
        DownElsewhere(v, w, j, p, KeysBelow(s.job, s.job.count), s.job.fileHash);
      case Done =>
        RT.HoldsElsewhere(v, w, j, KeysBelow(s.job, s.job.count), s.job.fileHash);
    }
  }

  lemma {:induction false} StageStep(hashes: Hashes, jobs: seq<Job>, v: View, w: View, s: Step, j: Job, stage: Stage)
    requires SoundHashes(hashes, jobs) && j in jobs && s.job in jobs
    requires At(v, j, stage) && Taken(v, w, s) && NextStage(j, stage, s).Some?
    requires RT.CollisionFree(j.hashes.sha256, Involved(w, j))
    ensures At(w, j, NextStage(j, stage, s).value)
  {
    if s.job.fileHash != j.fileHash {
      StageElsewhere(hashes, jobs, v, w, s, j, stage);
    } else if stage.p < j.count {
      DownStep(v, w, j, stage.p);
    } else {
      CompletedIsKept(v, w, j);
    }
  }

  lemma {:induction false} StageAt(hashes: Hashes, jobs: seq<Job>, views: seq<View>, steps: seq<Step>, j: Job, n: nat, stage: Stage)
    requires Race(hashes, jobs, views, steps) && j in jobs && n < |steps|
    requires At(views[n], j, stage) && NextStage(j, stage, steps[n]).Some?
    requires RT.CollisionFree(hashes.sha256, Involved(views[n + 1], j))
    ensures At(views[n + 1], j, NextStage(j, stage, steps[n]).value)
  {
    SoundPair(hashes, jobs, j, j);
    assert Taken(views[n], views[n + 1], steps[n]);
    StageStep(hashes, jobs, views[n], views[n + 1], steps[n], j, stage);
  }

  lemma {:induction false} StageReached(hashes: Hashes, jobs: seq<Job>, views: seq<View>, steps: seq<Step>, j: Job, n: nat, stage: Stage)
    requires Race(hashes, jobs, views, steps) && j in jobs && n <= |steps|
    requires At(views[n], j, stage) && OneStore(steps, j, n, stage)
    requires forall m :: 0 <= m < |views| ==> RT.CollisionFree(hashes.sha256, Involved(views[m], j))
    ensures At(views[|steps|], j, Done)
    decreases |steps| - n
  {
    if n < |steps| {
      StageAt(hashes, jobs, views, steps, j, n, stage);
      StageReached(hashes, jobs, views, steps, j, n + 1, NextStage(j, stage, steps[n]).value);
    }
  }

  /**
    Stores of different files do not get in each other's way: under any interleaving of any
    number of them, and whatever becomes of the others, a store that succeeds leaves its
    file held.
   */
  lemma {:induction false} RaceKeepsFile(hashes: Hashes, jobs: seq<Job>, views: seq<View>, steps: seq<Step>, j: Job)
    requires Race(hashes, jobs, views, steps) && j in jobs && OneStore(steps, j, 0, Writing(0))
    requires forall m :: 0 <= m < |views| ==> RT.CollisionFree(hashes.sha256, Involved(views[m], j))
    ensures Kept(views[|steps|], j)
  {
    StageReached(hashes, jobs, views, steps, j, 0, Writing(0));
  }

  // ---------------------------------------------------------------- stores of the same file

  /** Every step that concerns the file is of a streamed store of it that does not fail. */
  ghost predicate Together(steps: seq<Step>, j: Job) {
    && j.scheme == ByIndex
    && forall n :: 0 <= n < |steps| && steps[n].job.fileHash == j.fileHash ==> steps[n].job == j && !steps[n].Other?
  }

  ghost predicate WrittenBy(steps: seq<Step>, j: Job, i: nat, n: nat)
    requires n <= |steps|
  {
    exists m :: 0 <= m < n && steps[m] == Wrote(j, i)
  }

  predicate OwnChunkDown(w: View, j: Job, i: nat) {
    && KeyAt(j, i) in w.registry && w.registry[KeyAt(j, i)] == ChunkAt(j, i)
    && Verified(w, j.hashes, KeyAt(j, i))
  }

  lemma {:induction false} IndexKeysApart(hashes: Hashes, jobs: seq<Job>, j: Job, a: nat, b: nat)
    requires SoundHashes(hashes, jobs) && j in jobs && j.scheme == ByIndex
    requires a < j.count < U32 && b < j.count && a != b
    ensures KeyAt(j, a) != KeyAt(j, b)
  {
    SoundPair(hashes, jobs, j, j);
    RT.KeyInputPresent(j, a);
    RT.KeyInputPresent(j, b);
    if KeyInput(ByIndex, j.fileHash, a) == KeyInput(ByIndex, j.fileHash, b) {
      RT.IndexKeysDiffer(j.fileHash, a, b);
    }
  }

  lemma {:induction false} ChunkStaysDown(hashes: Hashes, jobs: seq<Job>, v: View, w: View, s: Step, j: Job, i: nat)
    requires SoundHashes(hashes, jobs) && j in jobs && s.job in jobs && Taken(v, w, s)
    requires j.scheme == ByIndex && i < j.count < U32 && OwnChunkDown(v, j, i)
    requires s.job.fileHash == j.fileHash ==> s.job == j && !s.Other?
    ensures OwnChunkDown(w, j, i)
  {
    if s.job.fileHash != j.fileHash {
      SoundPair(hashes, jobs, j, s.job);
      RT.KeysDisjoint(j, s.job);
      StepIsElsewhere(v, w, s);
      assert KeyAt(j, i) in KeysBelow(j, j.count);
    } else if s.Wrote? && s.i != i {
      IndexKeysApart(hashes, jobs, j, i, s.i);
    }
  }

  lemma {:induction false} ChunkDownAfter(hashes: Hashes, jobs: seq<Job>, views: seq<View>, steps: seq<Step>, j: Job, i: nat, n: nat)
    requires Race(hashes, jobs, views, steps) && j in jobs && Together(steps, j)
    requires n <= |steps| && i < j.count < U32 && WrittenBy(steps, j, i, n)
    ensures OwnChunkDown(views[n], j, i)
    decreases n
  {
    var m := n - 1;
    assert Taken(views[m], views[m + 1], steps[m]);
    if steps[m] != Wrote(j, i) {
      ChunkDownAfter(hashes, jobs, views, steps, j, i, m);
      ChunkStaysDown(hashes, jobs, views[m], views[m + 1], steps[m], j, i);
    }
  }

  lemma {:induction false} WrittenLater(steps: seq<Step>, j: Job, i: nat, c: nat, n: nat)
    requires c <= n <= |steps| && WrittenBy(steps, j, i, c)
    ensures WrittenBy(steps, j, i, n)
  {
  }

  /** A completed record lists the file's chunks. */
  ghost predicate OnRecord(w: View, j: Job) {
    && j.fileHash in w.references && w.references[j.fileHash].meta == Meta(j)
    && |w.references[j.fileHash].chunks| == j.count
    && (forall i :: 0 <= i < j.count ==> w.references[j.fileHash].chunks[i] == Some(ChunkAt(j, i)))
    && MetaFile(j.fileHash) in w.records && w.records[MetaFile(j.fileHash)] == w.references[j.fileHash]
  }

  lemma {:induction false} CompletedIsOnRecord(v: View, w: View, j: Job)
    requires RecordCompleted(v, w, j) && forall i :: 0 <= i < j.count ==> OwnChunkDown(v, j, i)
    ensures OnRecord(w, j)
  {
    forall i | 0 <= i < j.count
      ensures w.references[j.fileHash].chunks[i] == Some(ChunkAt(j, i))
    {
      assert OwnChunkDown(v, j, i);
    }
  }

  lemma {:induction false} OnRecordIsKept(w: View, j: Job)
    requires Storable(j) && j.scheme == ByIndex && OnRecord(w, j) && forall i :: 0 <= i < j.count ==> OwnChunkDown(w, j, i)
    requires RT.CollisionFree(j.hashes.sha256, Involved(w, j)) && RT.CollisionFree(j.hashes.sha1, RT.KeyInputs(j))
    ensures Kept(w, j)
  {
    forall i | 0 <= i < j.count
      ensures RT.HoldsChunk(w, j, i)
    {
      assert OwnChunkDown(w, j, i);
      IndexLastUse(j, j.count, i);
      assert PieceAt(j, i) in Involved(w, j) && w.files[ChunkFile(KeyAt(j, i))] in Involved(w, j);
    }
  }

  lemma {:induction false} OnRecordStep(hashes: Hashes, jobs: seq<Job>, v: View, w: View, s: Step, j: Job)
    requires Taken(v, w, s) && OnRecord(v, j)
    requires s.job.fileHash == j.fileHash ==> s.Wrote?
    ensures OnRecord(w, j)
  {
    StepIsElsewhere(v, w, s);
  }

  lemma {:induction false} OnRecordAfter(hashes: Hashes, jobs: seq<Job>, views: seq<View>, steps: seq<Step>, j: Job, c: nat, m: nat)
    requires Race(hashes, jobs, views, steps) && j in jobs && Together(steps, j) && j.count < U32
    requires c <= m < |steps| && steps[c] == Completed(j)
    requires forall i :: 0 <= i < j.count ==> WrittenBy(steps, j, i, c)
    ensures OnRecord(views[m + 1], j)
    decreases m
  {
    assert Taken(views[m], views[m + 1], steps[m]);
    if steps[m] == Completed(j) {
      forall i | 0 <= i < j.count
        ensures OwnChunkDown(views[m], j, i)
      {
        WrittenLater(steps, j, i, c, m);
        ChunkDownAfter(hashes, jobs, views, steps, j, i, m);
      }
      CompletedIsOnRecord(views[m], views[m + 1], j);
    } else {
      OnRecordAfter(hashes, jobs, views, steps, j, c, m - 1);
      OnRecordStep(hashes, jobs, views[m], views[m + 1], steps[m], j);
    }
  }

  /**
    Nor do streamed stores of one and the same file, as long as none of them fails: once one
    has completed the record after all chunks were written, by whichever of them, the file is
    held, and stays so however the others go on.
   */
  lemma {:induction false} RaceForOneFile(hashes: Hashes, jobs: seq<Job>, views: seq<View>, steps: seq<Step>, j: Job, c: nat)
    requires Race(hashes, jobs, views, steps) && j in jobs && Together(steps, j) && Storable(j)
    requires c < |steps| && steps[c] == Completed(j)
    requires forall i :: 0 <= i < j.count ==> WrittenBy(steps, j, i, c)
    requires RT.CollisionFree(hashes.sha256, Involved(views[|steps|], j))
    ensures Kept(views[|steps|], j)
  {
    var w := views[|steps|];
    OnRecordAfter(hashes, jobs, views, steps, j, c, |steps| - 1);
    SoundPair(hashes, jobs, j, j);
    forall i | 0 <= i < j.count
      ensures OwnChunkDown(w, j, i)
    {
      WrittenLater(steps, j, i, c, |steps|);
      ChunkDownAfter(hashes, jobs, views, steps, j, i, |steps|);
    }
    OnRecordIsKept(w, j);
  }
}
